/** Sequences and their concatenation. */
module Sequences {

  lemma Reassociate<T>(a: seq<T>, b: seq<T>, c: seq<T>)
    ensures (a + b) + c == a + (b + c)
  {
  }

  /** The pieces one behind the other. */
  function Concat<T>(pieces: seq<seq<T>>): seq<T> {
    if pieces == [] then [] else Concat(pieces[..|pieces| - 1]) + pieces[|pieces| - 1]
  }

  lemma NextPiece<T>(pieces: seq<seq<T>>, i: nat)
    requires i < |pieces|
    ensures Concat(pieces[..i + 1]) == Concat(pieces[..i]) + pieces[i]
  {
    assert pieces[..i + 1][..i] == pieces[..i];
  }

  lemma EmptyConcat<T>(pieces: seq<seq<T>>)
    ensures Concat(pieces[..0]) == []
  {
  }

  lemma {:induction false} ConcatFront<T>(piece: seq<T>, pieces: seq<seq<T>>)
    ensures Concat([piece] + pieces) == piece + Concat(pieces)
  {
    var n := |pieces|;
    if n == 0 {
      assert [piece] + pieces == [piece] && [piece][..0] == [];
    } else {
      ConcatFront(piece, pieces[..n - 1]);
      assert ([piece] + pieces)[..n] == [piece] + pieces[..n - 1];
      Reassociate(piece, Concat(pieces[..n - 1]), pieces[n - 1]);
    }
  }

  lemma {:induction false} ConcatPrefix<T>(pieces: seq<seq<T>>, n: nat)
    requires n <= |pieces|
    ensures Concat(pieces[..n]) <= Concat(pieces)
  {
    if n == |pieces| {
      assert pieces[..n] == pieces;
    } else {
      var m := |pieces| - 1;
      ConcatPrefix(pieces[..m], n);
      assert pieces[..m][..n] == pieces[..n];
    }
  }
}
