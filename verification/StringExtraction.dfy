/** Extraction of printable strings from binary data. */
module StringExtraction {
  import opened Bytes

  /** `is_ascii_graphic` or a space. */
  predicate Printable(b: Byte) { 0x20 <= b <= 0x7E }

  /** The data cut at every byte that is not printable. There is one piece more than there are cuts. */
  function Pieces(data: seq<Byte>): (pieces: seq<seq<Byte>>)
    ensures |pieces| >= 1
  {
    if data == [] then [[]]
    else
      var last, front := data[|data| - 1], Pieces(data[..|data| - 1]);
      var n := |front| - 1;
      if Printable(last) then front[n := front[n] + [last]] else front + [[]]
  }

  /** The bytes at which the data is cut. */
  function Cuts(data: seq<Byte>): seq<Byte> {
    if data == [] then []
    else
      var last := data[|data| - 1];
      Cuts(data[..|data| - 1]) + if Printable(last) then [] else [last]
  }

  function Glue(pieces: seq<seq<Byte>>, cuts: seq<Byte>): seq<Byte>
    requires |pieces| == |cuts| + 1
  {
    if cuts == [] then pieces[0]
    else Glue(pieces[..|pieces| - 1], cuts[..|cuts| - 1]) + [cuts[|cuts| - 1]] + pieces[|pieces| - 1]
  }

  /**
   * What makes Pieces a split: its pieces hold only printable bytes, from the space to the tilde, no cut is one of
   * these, and putting cuts and pieces back together gives the data.
   */
  lemma PiecesSplit(data: seq<Byte>)
    ensures forall p, b :: p in Pieces(data) && b in p ==> ' ' as int <= b <= '~' as int
    ensures forall b :: b in Cuts(data) ==> b < ' ' as int || b > '~' as int
    ensures |Pieces(data)| == |Cuts(data)| + 1 && Glue(Pieces(data), Cuts(data)) == data
  {
    PiecesPrintable(data);
    CutsUnprintable(data);
    GlueRestores(data);
  }

  lemma {:induction false} PiecesPrintable(data: seq<Byte>)
    ensures forall i, k :: 0 <= i < |Pieces(data)| && 0 <= k < |Pieces(data)[i]| ==> Printable(Pieces(data)[i][k])
  {
    if data != [] {
      PiecesPrintable(data[..|data| - 1]);
    }
  }

  lemma {:induction false} CutsUnprintable(data: seq<Byte>)
    ensures forall b :: b in Cuts(data) ==> !Printable(b)
  {
    if data != [] {
      CutsUnprintable(data[..|data| - 1]);
    }
  }

  lemma {:induction false} GlueRestores(data: seq<Byte>)
    ensures |Pieces(data)| == |Cuts(data)| + 1 && Glue(Pieces(data), Cuts(data)) == data
  {
    if data != [] {
      var front, last := data[..|data| - 1], data[|data| - 1];
      GlueRestores(front);
      assert data == front + [last];
      if Printable(last) {
        assert Cuts(data) == Cuts(front);
        GlueLast(Pieces(front), Cuts(front), last);
      } else {
        GlueCut(Pieces(front), Cuts(front), last);
      }
    }
  }

  /** A cut ends the last piece and begins an empty one. */
  lemma GlueCut(pieces: seq<seq<Byte>>, cuts: seq<Byte>, b: Byte)
    requires |pieces| == |cuts| + 1
    ensures Glue(pieces + [[]], cuts + [b]) == Glue(pieces, cuts) + [b]
  {
    assert (pieces + [[]])[..|pieces|] == pieces && (cuts + [b])[..|cuts|] == cuts;
    assert Glue(pieces, cuts) + [b] + [] == Glue(pieces, cuts) + [b];
  }

  /** Growing the last piece grows the whole. */
  lemma GlueLast(pieces: seq<seq<Byte>>, cuts: seq<Byte>, b: Byte)
    requires |pieces| == |cuts| + 1
    ensures var n := |cuts|; Glue(pieces[n := pieces[n] + [b]], cuts) == Glue(pieces, cuts) + [b]
  {
    var n := |cuts|;
    var after := pieces[n := pieces[n] + [b]];
    assert after[..n] == pieces[..n];
  }

  /** The pieces that are long enough, in order. */
  function Keep(pieces: seq<seq<Byte>>, minLength: nat): seq<seq<Byte>> {
    if pieces == [] then []
    else
      var last := pieces[|pieces| - 1];
      Keep(pieces[..|pieces| - 1], minLength) + if |last| >= minLength then [last] else []
  }

  /** `at` lists, in increasing order, the indices of exactly the pieces that are long enough, and these are kept. */
  lemma {:induction false} KeptPieces(pieces: seq<seq<Byte>>, minLength: nat) returns (at: seq<nat>)
    ensures |at| == |Keep(pieces, minLength)|
    ensures forall k :: 0 <= k < |at| ==> at[k] < |pieces| && Keep(pieces, minLength)[k] == pieces[at[k]]
    ensures forall k, l :: 0 <= k < l < |at| ==> at[k] < at[l]
    ensures forall i :: 0 <= i < |pieces| ==> (i in at <==> |pieces[i]| >= minLength)
  {
    at := [];
    if pieces != [] {
      var n := |pieces| - 1;
      at := KeptPieces(pieces[..n], minLength);
      if |pieces[n]| >= minLength {
        at := at + [n];
      }
    }
  }

  /** For every minimal length, zero included, the strings are the long enough pieces in order. */
  method ExtractStrings(data: seq<Byte>, minLength: nat) returns (strings: seq<seq<Byte>>, ghost at: seq<nat>)
    ensures strings == Keep(Pieces(data), minLength)
    ensures |at| == |strings| && forall k, l :: 0 <= k < l < |at| ==> at[k] < at[l]
    ensures forall k :: 0 <= k < |at| ==> at[k] < |Pieces(data)| && strings[k] == Pieces(data)[at[k]]
    ensures forall i :: 0 <= i < |Pieces(data)| ==> (i in at <==> |Pieces(data)[i]| >= minLength)
  {
    strings := [];
    var current: seq<Byte> := [];
    for i := 0 to |data|
      invariant var pieces := Pieces(data[..i]);
        current == pieces[|pieces| - 1] && strings == Keep(pieces[..|pieces| - 1], minLength)
    {
      var byte := data[i];
      assert data[..i + 1][..i] == data[..i];
      ghost var pieces, n := Pieces(data[..i]), |Pieces(data[..i])| - 1;
      if Printable(byte) {
        current := current + [byte];
        assert pieces[n := current][..n] == pieces[..n];
      } else {
        assert (pieces + [[]])[..n + 1] == pieces;
        if |current| >= minLength {
          strings := strings + [current];
        }
        current := [];
      }
    }
    assert data[..|data|] == data;
    if |current| >= minLength {
      strings := strings + [current];
    }
    at := KeptPieces(Pieces(data), minLength);
  }
}
