/** The structural mutation of a byte input: insert, delete, duplicate or swap sections, in place. */
module StructuralMutation {
  import opened Bytes
  import opened Draws

  // ---------------------------------------------------------------- what the branches may do

  /** `t` is `s` with `section` spliced in at `pos`. */
  predicate SplicedAt(s: seq<Byte>, pos: nat, section: seq<Byte>, t: seq<Byte>) {
    pos <= |s| && t == s[..pos] + section + s[pos..]
  }

  /** The first draw picks the place, the second how many bytes, and the others are the bytes. */
  ghost predicate Inserted(draw: Draw, at: nat, s: seq<Byte>, t: seq<Byte>) {
    var pos, count := ValueAt(draw, at, 0) % (|s| + 1), ValueAt(draw, at + 1, 0) % 16 + 1;
    exists section: seq<Byte> :: && SplicedAt(s, pos, section, t) && |section| == count
                                 && forall i :: 0 <= i < count ==> section[i] == ValueAt(draw, at + 2 + i, 0) % 256
  }

  /** How many bytes can go from `start` on: at most sixteen. */
  function MaxDelete(size: nat, start: nat): (n: nat)
    requires start < size
    ensures 1 <= n <= 16 && start + n <= size
  {
    if size - start <= 16 then size - start else 16
  }

  /** The input without a section; an input of one byte is left alone. */
  function Deleted(s: seq<Byte>, draw1: nat, draw2: nat): seq<Byte> {
    if |s| <= 1 then s
    else
      var start := draw1 % |s|;
      var count := draw2 % MaxDelete(|s|, start) + 1;
      s[..start] + s[start + count..]
  }

  /** What was deleted can be spliced in again: a deletion is undone by an insertion of one to sixteen bytes. */
  lemma DeletionIsUndone(s: seq<Byte>, draw1: nat, draw2: nat) returns (pos: nat, section: seq<Byte>)
    requires |s| > 1
    ensures pos == draw1 % |s| && 1 <= |section| <= 16
    ensures |section| == draw2 % (if |s| - pos <= 16 then |s| - pos else 16) + 1
    ensures SplicedAt(Deleted(s, draw1, draw2), pos, section, s)
  {
    pos := draw1 % |s|;
    var count := draw2 % MaxDelete(|s|, pos) + 1;
    section := s[pos..pos + count];
    var t := Deleted(s, draw1, draw2);
    assert t[..pos] == s[..pos] && t[pos..] == s[pos + count..];
  }

  /** The input with one of its sections, of at most 32 bytes, spliced in a second time. */
  function Duplicated(s: seq<Byte>, draw1: nat, draw2: nat, draw3: nat): seq<Byte> {
    if |s| <= 4 then s
    else
      var start := draw1 % (|s| - 4);
      var wanted := draw2 % 32 + 1;
      var length := if wanted <= |s| - start then wanted else |s| - start;
      var pos := draw3 % (|s| + 1);
      s[..pos] + s[start..start + length] + s[pos..]
  }

  /**
   * A duplication makes an input of more than four bytes longer by one to 32 bytes. Taking out what was spliced in
   * restores the input, and what was spliced in is a section of it.
   */
  lemma DuplicationIsUndone(s: seq<Byte>, draw1: nat, draw2: nat, draw3: nat)
    returns (pos: nat, start: nat, length: nat)
    requires |s| > 4
    ensures pos <= |s| && 1 <= length <= 32 && start + length <= |s|
    ensures start == draw1 % (|s| - 4) && pos == draw3 % (|s| + 1)
    ensures length == draw2 % 32 + 1 || (length < draw2 % 32 + 1 && start + length == |s|)
    ensures var t := Duplicated(s, draw1, draw2, draw3);
            && |t| == |s| + length
            && t[..pos] + t[pos + length..] == s
            && t[pos..pos + length] == s[start..start + length]
  {
    start, pos := draw1 % (|s| - 4), draw3 % (|s| + 1);
    length := if draw2 % 32 + 1 <= |s| - start then draw2 % 32 + 1 else |s| - start;
    var t := Duplicated(s, draw1, draw2, draw3);
    assert t == s[..pos] + s[start..start + length] + s[pos..];
    assert t[..pos] == s[..pos] && t[pos + length..] == s[pos..];
  }

  /** `t` is `s` with the `n` bytes at `a` and the `n` bytes at `b` exchanged. */
  function Exchange(s: seq<Byte>, a: nat, b: nat, n: nat): seq<Byte>
    requires a + n <= b && b + n <= |s|
  {
    s[..a] + s[b..b + n] + s[a + n..b] + s[a..a + n] + s[b + n..]
  }

  /** The draws of a swap, and the two ranges they stand for. */
  datatype Sections = Sections(start1: nat, length1: nat, start2: nat)

  function DrawnSections(size: nat, draw1: nat, draw2: nat, draw3: nat): (r: Sections)
    requires size > 8
    ensures r.start1 < size / 2 && 1 <= r.length1 <= size / 4 && r.length1 <= 16
    ensures size / 2 <= r.start2 < size
    ensures r.start1 + r.length1 < size
  {
    Sections(draw1 % (size / 2), if draw2 % 16 + 1 <= size / 4 then draw2 % 16 + 1 else size / 4,
             size / 2 + draw3 % (size / 2))
  }

  /** The second section is cut off at the end of the input. */
  function Length2(size: nat, r: Sections): nat
    requires r.start2 < size
  {
    if r.length1 <= size - r.start2 then r.length1 else size - r.start2
  }

  /** What a swap with given draws does: nothing if the sections overlap; otherwise `Length2` bytes trade places. */
  function Swapped(s: seq<Byte>, draw1: nat, draw2: nat, draw3: nat): seq<Byte> {
    if |s| <= 8 then s
    else
      var r := DrawnSections(|s|, draw1, draw2, draw3);
      if r.start1 + r.length1 <= r.start2 then Exchange(s, r.start1, r.start2, Length2(|s|, r)) else s
  }

  // ---------------------------------------------------------------- laws of the swap

  lemma ExchangeAt(s: seq<Byte>, a: nat, b: nat, n: nat)
    requires a + n <= b && b + n <= |s|
    ensures var t := Exchange(s, a, b, n);
            && |t| == |s|
            && (forall k :: a <= k < a + n ==> t[k] == s[b + (k - a)])
            && (forall k :: b <= k < b + n ==> t[k] == s[a + (k - b)])
            && (forall k :: 0 <= k < |s| && !(a <= k < a + n) && !(b <= k < b + n) ==> t[k] == s[k])
  {
  }

  lemma ExchangeIsPermutation(s: seq<Byte>, a: nat, b: nat, n: nat)
    requires a + n <= b && b + n <= |s|
    ensures multiset(Exchange(s, a, b, n)) == multiset(s)
  {
    InParts(s, a, b, n);
    FiveParts(s[..a], s[a..a + n], s[a + n..b], s[b..b + n], s[b + n..]);
  }

  lemma InParts(s: seq<Byte>, a: nat, b: nat, n: nat)
    requires a + n <= b && b + n <= |s|
    ensures multiset(s) == multiset(s[..a] + s[a..a + n] + s[a + n..b]) + multiset(s[b..b + n] + s[b + n..])
  {
    assert s[..a] + s[a..a + n] + s[a + n..b] == s[..b];
    assert s[b..b + n] + s[b + n..] == s[b..];
    assert s == s[..b] + s[b..];
  }

  lemma FiveParts(front: seq<Byte>, section1: seq<Byte>, middle: seq<Byte>, section2: seq<Byte>, back: seq<Byte>)
    ensures multiset(front + section2 + middle + section1 + back)
         == multiset(front + section1 + middle) + multiset(section2 + back)
  {
  }

  /** A swap is a permutation of the input and keeps its size, for all draws. */
  lemma SwapIsPermutation(s: seq<Byte>, draw1: nat, draw2: nat, draw3: nat)
    ensures multiset(Swapped(s, draw1, draw2, draw3)) == multiset(s)
    ensures |Swapped(s, draw1, draw2, draw3)| == |s|
  {
    hide Exchange, DrawnSections;
    if |s| > 8 {
      var r := DrawnSections(|s|, draw1, draw2, draw3);
      if r.start1 + r.length1 <= r.start2 {
        ExchangeIsPermutation(s, r.start1, r.start2, Length2(|s|, r));
        ExchangeAt(s, r.start1, r.start2, Length2(|s|, r));
      }
    }
  }

  /** Swapping again with the same draws restores the input. */
  lemma SwapTwice(s: seq<Byte>, draw1: nat, draw2: nat, draw3: nat)
    ensures Swapped(Swapped(s, draw1, draw2, draw3), draw1, draw2, draw3) == s
  {
    SwapIsPermutation(s, draw1, draw2, draw3);
    if |s| > 8 {
      var r := DrawnSections(|s|, draw1, draw2, draw3);
      if r.start1 + r.length1 <= r.start2 {
        ExchangeTwice(s, r.start1, r.start2, Length2(|s|, r));
      }
    }
  }

  lemma ExchangeTwice(s: seq<Byte>, a: nat, b: nat, n: nat)
    requires a + n <= b && b + n <= |s|
    ensures |Exchange(s, a, b, n)| == |s| && Exchange(Exchange(s, a, b, n), a, b, n) == s
  {
    var t := Exchange(s, a, b, n);
    ExchangeAt(s, a, b, n);
    ExchangeAt(t, a, b, n);
    hide Exchange;
    var u := Exchange(t, a, b, n);
    forall k | 0 <= k < |s|
      ensures u[k] == s[k]
    {
      if a <= k < a + n {
        assert u[k] == t[b + (k - a)];
      } else if b <= k < b + n {
        assert u[k] == t[a + (k - b)];
      }
    }
  }

  /**
   * Which bytes a swap moves, in terms of the draws: the first section begins in the first half and has at most 16
   * bytes and at most a quarter of the input, the second begins in the second half and is cut off at the end.
   */
  lemma SwapMoves(s: seq<Byte>, draw1: nat, draw2: nat, draw3: nat)
    requires |s| > 8
    ensures var t := Swapped(s, draw1, draw2, draw3);
            var a, b := draw1 % (|s| / 2), |s| / 2 + draw3 % (|s| / 2);
            var wanted := if draw2 % 16 + 1 <= |s| / 4 then draw2 % 16 + 1 else |s| / 4;
            var n := if b + wanted <= |s| then wanted else |s| - b;
            && |t| == |s|
            && forall k :: 0 <= k < |s| ==>
                 t[k] == if a + wanted <= b && a <= k < a + n then s[b + (k - a)]
                         else if a + wanted <= b && b <= k < b + n then s[a + (k - b)]
                         else s[k]
  {
    var r := DrawnSections(|s|, draw1, draw2, draw3);
    hide Exchange;
    if r.start1 + r.length1 <= r.start2 {
      ExchangeAt(s, r.start1, r.start2, Length2(|s|, r));
    }
  }

  // ---------------------------------------------------------------- the mutation

  /** What the draws make of a non-empty input: the first one picks the kind of mutation, the others the rest. */
  ghost predicate Mutated(draw: Draw, at: nat, s: seq<Byte>, t: seq<Byte>) {
    var draw1, draw2, draw3 := ValueAt(draw, at + 1, 0), ValueAt(draw, at + 2, 0), ValueAt(draw, at + 3, 0);
    match ValueAt(draw, at, 0) % 4
    case 0 => Inserted(draw, at + 1, s, t)
    case 1 => t == Deleted(s, draw1, draw2)
    case 2 => t == Duplicated(s, draw1, draw2, draw3)
    case _ => t == Swapped(s, draw1, draw2, draw3)
  }

  /** How each kind of mutation changes the size. */
  lemma MutatedSize(draw: Draw, at: nat, s: seq<Byte>, t: seq<Byte>)
    requires s != [] && Mutated(draw, at, s, t)
    ensures match ValueAt(draw, at, 0) % 4
            case 0 => |s| < |t| <= |s| + 16
            case 1 => if |s| == 1 then t == s else |s| - 16 <= |t| < |s|
            case 2 => if |s| <= 4 then t == s else |s| < |t| <= |s| + 32
            case _ => |t| == |s|
  {
    var draw1, draw2, draw3 := ValueAt(draw, at + 1, 0), ValueAt(draw, at + 2, 0), ValueAt(draw, at + 3, 0);
    SwapIsPermutation(s, draw1, draw2, draw3);
    hide Swapped;
    if |s| > 4 {
      var pos, start, length := DuplicationIsUndone(s, draw1, draw2, draw3);
    }
  }

  /** Returns whether the input was mutated at all; an empty input is skipped. */
  method ApplyStructuralMutation(input: ByteVec, rand: Source) returns (mutated: bool)
    modifies input, rand
    ensures mutated <==> old(input.bytes) != []
    ensures if mutated then Mutated(rand.draw, old(rand.position), old(input.bytes), input.bytes)
            else input.bytes == []
  {
    hide Inserted, Deleted, Duplicated, Swapped;
    if |input.bytes| == 0 {
      return false;
    }
    var mutationType := rand.Usize(0);
    match mutationType % 4 {
      case 0 => InsertBytes(input, rand);
      case 1 => DeleteBytes(input, rand);
      case 2 => DuplicateSection(input, rand);
      case _ => SwapSections(input, rand);
    }
    return true;
  }

  method DrawBytes(rand: Source, count: nat) returns (bytes: seq<Byte>)
    modifies rand
    ensures |bytes| == count
    ensures forall i :: 0 <= i < count ==> bytes[i] == ValueAt(rand.draw, old(rand.position) + i, 0) % 256
  {
    bytes := [];
    while |bytes| < count
      invariant |bytes| <= count && rand.position == old(rand.position) + |bytes|
      invariant forall i :: 0 <= i < |bytes| ==> bytes[i] == ValueAt(rand.draw, old(rand.position) + i, 0) % 256
    {
      var byte := rand.U8(0);
      bytes := bytes + [byte];
    }
  }

  method InsertBytes(input: ByteVec, rand: Source)
    modifies input, rand
    ensures Inserted(rand.draw, old(rand.position), old(input.bytes), input.bytes)
  {
    hide Inserted;
    var posDraw := rand.Usize(0);
    var insertPos := posDraw % (|input.bytes| + 1);
    var countDraw := rand.Usize(0);
    var insertCount := countDraw % 16 + 1;
    var newBytes := DrawBytes(rand, insertCount);
    var s := input.bytes;
    input.bytes := s[..insertPos] + newBytes + s[insertPos..];
    DrawnInsertion(rand.draw, old(rand.position), s, newBytes);
  }

  lemma DrawnInsertion(draw: Draw, at: nat, s: seq<Byte>, section: seq<Byte>)
    requires |section| == ValueAt(draw, at + 1, 0) % 16 + 1
    requires forall i :: 0 <= i < |section| ==> section[i] == ValueAt(draw, at + 2 + i, 0) % 256
    ensures var pos := ValueAt(draw, at, 0) % (|s| + 1); Inserted(draw, at, s, s[..pos] + section + s[pos..])
  {
    var pos := ValueAt(draw, at, 0) % (|s| + 1);
    assert SplicedAt(s, pos, section, s[..pos] + section + s[pos..]);
  }

  method DeleteBytes(input: ByteVec, rand: Source)
    requires input.bytes != []
    modifies input, rand
    ensures var p := old(rand.position); input.bytes == Deleted(old(input.bytes), rand.At(p, 0), rand.At(p + 1, 0))
  {
    if |input.bytes| > 1 {
      var s := input.bytes;
      var startDraw := rand.Usize(0);
      var deleteStart := startDraw % |s|;
      var maxDelete := MaxDelete(|s|, deleteStart);
      var countDraw := rand.Usize(0);
      var deleteCount := countDraw % maxDelete + 1;
      var deleteEnd := if deleteStart + deleteCount <= |s| then deleteStart + deleteCount else |s|;
      input.bytes := s[..deleteStart] + s[deleteEnd..];
    }
  }

  method DuplicateSection(input: ByteVec, rand: Source)
    modifies input, rand
    ensures var p := old(rand.position);
            input.bytes == Duplicated(old(input.bytes), rand.At(p, 0), rand.At(p + 1, 0), rand.At(p + 2, 0))
  {
    if |input.bytes| > 4 {
      var s := input.bytes;
      var startDraw := rand.Usize(0);
      var srcStart := startDraw % (|s| - 4);
      var lengthDraw := rand.Usize(0);
      var srcLen := if lengthDraw % 32 + 1 <= |s| - srcStart then lengthDraw % 32 + 1 else |s| - srcStart;
      var srcEnd := srcStart + srcLen;
      var section := s[srcStart..srcEnd];
      var posDraw := rand.Usize(0);
      var insertPos := posDraw % (|s| + 1);
      input.bytes := s[..insertPos] + section + s[insertPos..];
    }
  }

  method SwapSections(input: ByteVec, rand: Source)
    modifies input, rand
    ensures var p := old(rand.position);
            input.bytes == Swapped(old(input.bytes), rand.At(p, 0), rand.At(p + 1, 0), rand.At(p + 2, 0))
  {
    if |input.bytes| > 8 {
      hide Swapped;
      var draw1 := rand.Usize(0);
      var draw2 := rand.Usize(0);
      var draw3 := rand.Usize(0);
      SwapDrawn(input, draw1, draw2, draw3);
    }
  }

  method SwapDrawn(input: ByteVec, draw1: nat, draw2: nat, draw3: nat)
    requires |input.bytes| > 8
    modifies input
    ensures input.bytes == Swapped(old(input.bytes), draw1, draw2, draw3)
  {
    hide Exchange, DrawnSections;
    var s := input.bytes;
    var r := DrawnSections(|s|, draw1, draw2, draw3);
    var start1, start2 := r.start1, r.start2;
    var end1 := if start1 + r.length1 <= |s| then start1 + r.length1 else |s|;
    var end2 := if start2 + Length2(|s|, r) <= |s| then start2 + Length2(|s|, r) else |s|;
    if end1 <= start2 {
      ExchangeSections(input, start1, end1, start2, end2);
    }
  }

  /** The two copying loops of the swap. The first section may be the longer one; its surplus falls off the end. */
  method ExchangeSections(input: ByteVec, start1: nat, end1: nat, start2: nat, end2: nat)
    requires start1 <= end1 <= start2 <= end2 <= |input.bytes|
    requires end2 - start2 <= end1 - start1
    requires end2 - start2 < end1 - start1 ==> end2 == |input.bytes|
    modifies input
    ensures input.bytes == Exchange(old(input.bytes), start1, start2, end2 - start2)
  {
    var s := input.bytes;
    var section1, section2 := s[start1..end1], s[start2..end2];
    Overwrite(input, start1, section2);
    Overwrite(input, start2, section1);
    ExchangeAt(s, start1, start2, end2 - start2);
    hide Exchange;
  }

  /** Copies `section` to `start`; bytes that would fall off the end are dropped. */
  method Overwrite(input: ByteVec, start: nat, section: seq<Byte>)
    modifies input
    ensures |input.bytes| == |old(input.bytes)|
    ensures forall k :: 0 <= k < |input.bytes| ==>
              input.bytes[k] == if start <= k < start + |section| then section[k - start] else old(input.bytes)[k]
  {
    for i := 0 to |section|
      invariant |input.bytes| == |old(input.bytes)|
      invariant forall k :: 0 <= k < |input.bytes| ==>
        input.bytes[k] == if start <= k < start + i then section[k - start] else old(input.bytes)[k]
    {
      if start + i < |input.bytes| {
        input.Set(start + i, section[i]);
      }
    }
  }
}
