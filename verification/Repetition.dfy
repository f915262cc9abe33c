/** The two detectors of repetition in packets. */
module Repetition {
  import opened Bytes
  import opened Wrappers

  // ---------------------------------------------------------------- bytes in runs

  /** The byte at `i` equals one of its neighbours. */
  predicate HasTwin(data: seq<Byte>, i: nat)
    requires i < |data|
  {
    (i > 0 && data[i - 1] == data[i]) || (i + 1 < |data| && data[i + 1] == data[i])
  }

  /** How many of the first `n` bytes have a twin. */
  function Twins(data: seq<Byte>, n: nat): (count: nat)
    requires n <= |data|
    ensures count <= n
  {
    if n == 0 then 0 else Twins(data, n - 1) + if HasTwin(data, n - 1) then 1 else 0
  }

  /** From `start` to `end`, all bytes are equal, and the byte before `start` is different. */
  ghost predicate RunFrom(data: seq<Byte>, start: nat, end: nat) {
    && start < end <= |data|
    && (forall i :: start <= i < end ==> data[i] == data[start])
    && (start > 0 ==> data[start - 1] != data[start])
  }

  /** A finished run counts in full if it is longer than one byte, and not at all otherwise. */
  lemma RunCounts(data: seq<Byte>, start: nat, end: nat)
    requires RunFrom(data, start, end) && (end < |data| ==> data[end] != data[start])
    ensures Twins(data, end) == Twins(data, start) + if end - start > 1 then end - start else 0
  {
    if end - start == 1 {
      assert !HasTwin(data, start);
    } else {
      forall i: nat | start <= i < end
        ensures HasTwin(data, i)
      {
        assert i > start ==> data[i - 1] == data[i];
        assert i == start ==> data[i + 1] == data[i];
      }
      AllTwins(data, start, end);
    }
  }

  lemma {:induction false} AllTwins(data: seq<Byte>, start: nat, end: nat)
    requires start <= end <= |data| && forall i: nat :: start <= i < end ==> HasTwin(data, i)
    ensures Twins(data, end) == Twins(data, start) + end - start
  {
    if start < end {
      AllTwins(data, start, end - 1);
    }
  }

  method CountRepeatedBytes(data: seq<Byte>) returns (count: nat)
    ensures count == Twins(data, |data|)
  {
    if |data| == 0 {
      return 0;
    }
    count := 0;
    var prevByte := data[0];
    var currentRun: nat := 1;
    for i := 1 to |data|
      invariant currentRun <= i && RunFrom(data, i - currentRun, i) && prevByte == data[i - currentRun]
      invariant count == Twins(data, i - currentRun)
    {
      var byte := data[i];
      if byte == prevByte {
        currentRun := currentRun + 1;
      } else {
        RunCounts(data, i - currentRun, i);
        if currentRun > 1 {
          count := count + currentRun;
        }
        currentRun := 1;
        prevByte := byte;
      }
    }
    RunCounts(data, |data| - currentRun, |data|);
    if currentRun > 1 {
      count := count + currentRun;
    }
  }

  // ---------------------------------------------------------------- repeated patterns

  /** The `w` bytes at `i` occur again at `j`, without overlap. */
  predicate RepeatsAt(data: seq<Byte>, w: nat, i: nat, j: nat) {
    i + w <= j && j + w <= |data| && data[i..i + w] == data[j..j + w]
  }

  ghost predicate Repeats(data: seq<Byte>, w: nat) {
    exists i: nat, j: nat :: RepeatsAt(data, w, i, j)
  }

  /** A repeated longer pattern contains a repeated pair. */
  lemma LongerRepeatsContainPairs(data: seq<Byte>, w: nat)
    requires w >= 2 && Repeats(data, w)
    ensures Repeats(data, 2)
  {
    var i: nat, j: nat :| RepeatsAt(data, w, i, j);
    assert data[i..i + 2] == data[i..i + w][..2] && data[j..j + 2] == data[j..j + w][..2];
    assert RepeatsAt(data, 2, i, j);
  }

  lemma EqualPairs(data: seq<Byte>, i: nat, j: nat)
    requires RepeatsAt(data, 2, i, j)
    ensures i + 2 <= j && j + 2 <= |data| && data[i] == data[j] && data[i + 1] == data[j + 1]
  {
    assert data[i..i + 2][0] == data[i] && data[j..j + 2][0] == data[j];
    assert data[i..i + 2][1] == data[i + 1] && data[j..j + 2][1] == data[j + 1];
  }

  /** The inputs on which the search comes to an answer; all others have four to seven bytes. */
  ghost predicate Searchable(data: seq<Byte>) {
    |data| < 4 || |data| >= 8 || Repeats(data, 2)
  }

  /**
   * `None` is the panic of the unsigned subtraction for data shorter than two windows (where the subtraction wraps,
   * of the slice behind the end instead). When there is an answer, it is that of window size two: sizes three and
   * four never change it.
   */
  method HasRepeatedBytes(data: seq<Byte>) returns (r: Option<bool>)
    ensures r == if Searchable(data) then Some(Repeats(data, 2)) else None
  {
    if |data| < 4 {
      return Some(false);
    }
    for windowSize := 2 to 5
      invariant windowSize > 2 ==> !Repeats(data, 2)
      invariant |data| >= 2 * (windowSize - 1)
    {
      if |data| < windowSize * 2 {
        return None;
      }
      var found := SearchWindow(data, windowSize);
      if found {
        LongerRepeatsContainPairs(data, windowSize);
        return Some(true);
      }
    }
    return Some(false);
  }

  /** The two inner loops: the pattern at `i` is compared with everything behind it. */
  method SearchWindow(data: seq<Byte>, w: nat) returns (found: bool)
    requires w >= 1 && |data| >= 2 * w
    ensures found <==> Repeats(data, w)
  {
    for i := 0 to |data| - w * 2 + 1
      invariant forall a: nat, b: nat :: a < i ==> !RepeatsAt(data, w, a, b)
    {
      var pattern := data[i..i + w];
      for j := i + w to |data| - w + 1
        invariant forall b: nat :: b < j ==> !RepeatsAt(data, w, i, b)
      {
        if data[j..j + w] == pattern {
          assert RepeatsAt(data, w, i, j);
          return true;
        }
      }
    }
    return false;
  }
}
