/** The fuzzer's source of randomness, as an arbitrary function from the number of a draw to its result. */
module Draws {
  import opened Bytes
  import opened Wrappers

  /** The draws, by number. One without a result takes the default, as in `arbitrary().unwrap_or(default)`. */
  type Draw = nat -> Option<nat>

  function ValueAt(draw: Draw, i: nat, default: nat): nat {
    if draw(i).Some? then draw(i).value else default
  }

  /** There is a result for every draw. */
  ghost predicate Endless(draw: Draw) { forall i :: draw(i).Some? }

  /** What some draws make, and the number of the next draw. */
  datatype Taken<T> = Taken(value: T, next: nat)

  /**
   * `Unstructured` and the random generators: every theorem quantifies over `draw`. */
  class Source {
    const draw: Draw
    var position: nat

    constructor (draw: Draw)
      ensures this.draw == draw && position == 0
    {
      this.draw, position := draw, 0;
    }

    /** The value of draw number `i`. */
    function At(i: nat, default: nat): nat {
      ValueAt(draw, i, default)
    }

    method Usize(default: nat) returns (v: nat)
      modifies this
      ensures v == At(old(position), default) && position == old(position) + 1
    {
      v := At(position, default);
      position := position + 1;
    }

    method U8(default: Byte) returns (v: Byte)
      modifies this
      ensures v == At(old(position), default) % 256 && position == old(position) + 1
    {
      var n := Usize(default);
      v := n % 256;
    }

    method U16(default: nat) returns (v: nat)
      requires default < 0x1_0000
      modifies this
      ensures v == At(old(position), default) % 0x1_0000 && position == old(position) + 1
    {
      var n := Usize(default);
      v := n % 0x1_0000;
    }

    method Bool(default: bool) returns (v: bool)
      modifies this
      ensures v <==> At(old(position), if default then 1 else 0) % 2 == 1
      ensures position == old(position) + 1
    {
      var n := Usize(if default then 1 else 0);
      v := n % 2 == 1;
    }
  }
}
