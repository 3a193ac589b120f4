/** Cutting a list into consecutive pieces of a fixed size: the map menus of
    the scrim wizard (25 options each) and the pages of the scrim list (5 each). */
module Chunking {

  /** How many pieces of at most `size` items hold `n` items, counted by
      taking one full piece at a time. */
  function PieceCount(n: nat, size: nat): nat
    requires size > 0
    decreases n
  {
    if n == 0 then 0 else if n <= size then 1 else 1 + PieceCount(n - size, size)
  }

  /** The piece count is the least number of pieces that covers every item. */
  lemma {:induction false} PieceCountBounds(n: nat, size: nat)
    requires size > 0
    ensures PieceCount(n, size) * size >= n
    ensures PieceCount(n, size) == 0 || (PieceCount(n, size) - 1) * size < n
    decreases n
  {
    if n > size {
      PieceCountBounds(n - size, size);
      var c := PieceCount(n - size, size);
      assert (c + 1) * size == c * size + size;
      assert c * size == (c - 1) * size + size;
    }
  }

  /** For the two piece sizes the bot uses, the count is the source's
      `Math.ceil(n / size)`. */
  lemma {:induction false} PieceCountIsCeil(n: nat, size: nat)
    requires size == 5 || size == 25
    ensures PieceCount(n, size) == (n + size - 1) / size
    decreases n
  {
    if n > size {
      PieceCountIsCeil(n - size, size);
    }
  }

  /** `s.slice(k * size, k * size + size)`: the k-th piece, empty past the end. */
  function Piece<T>(s: seq<T>, size: nat, k: nat): seq<T>
    requires size > 0
  {
    var lo := k * size;
    if lo >= |s| then [] else s[lo .. if lo + size <= |s| then lo + size else |s|]
  }

  /** The same pieces, cut off the front one after another. */
  function Pieces<T>(s: seq<T>, size: nat): seq<seq<T>>
    requires size > 0
    decreases |s|
  {
    if |s| == 0 then []
    else if |s| <= size then [s]
    else [s[..size]] + Pieces(s[size..], size)
  }

  /** Concatenation of a list of lists. */
  function Flatten<T>(ss: seq<seq<T>>): seq<T> {
    if |ss| == 0 then [] else ss[0] + Flatten(ss[1..])
  }

  lemma {:induction false} PiecesCount<T>(s: seq<T>, size: nat)
    requires size > 0
    ensures |Pieces(s, size)| == PieceCount(|s|, size)
    decreases |s|
  {
    if |s| > size { PiecesCount(s[size..], size); }
  }

  /** Every piece is non-empty and holds at most `size` items. */
  lemma {:induction false} PiecesSizes<T>(s: seq<T>, size: nat)
    requires size > 0
    ensures forall k :: 0 <= k < |Pieces(s, size)| ==> 0 < |Pieces(s, size)[k]| <= size
    decreases |s|
  {
    if |s| > size {
      PiecesSizes(s[size..], size);
      assert Pieces(s, size)[1..] == Pieces(s[size..], size);
    }
  }

  /** The pieces put back together are the list itself. */
  lemma {:induction false} PiecesFlatten<T>(s: seq<T>, size: nat)
    requires size > 0
    ensures Flatten(Pieces(s, size)) == s
    decreases |s|
  {
    var ps := Pieces(s, size);
    if |s| > size {
      PiecesFlatten(s[size..], size);
      assert ps[1..] == Pieces(s[size..], size);
      assert Flatten(ps) == s[..size] + s[size..];
    } else if |s| > 0 {
      assert Flatten(ps) == s + Flatten([]);
    }
  }

  /** The k-th piece cut off the front is the k-th slice `Piece(s, size, k)`. */
  lemma {:induction false} PieceAt<T>(s: seq<T>, size: nat, k: nat)
    requires size > 0 && k < |Pieces(s, size)|
    ensures Pieces(s, size)[k] == Piece(s, size, k)
    decreases |s|
  {
    if k == 0 {
      assert 0 * size == 0;
    } else {
      assert |s| > size;
      var t := s[size..];
      assert Pieces(s, size) == [s[..size]] + Pieces(t, size);
      PieceAt(t, size, k - 1);
      ShiftedPiece(s, size, k);
    }
  }

  lemma ShiftedPiece<T>(s: seq<T>, size: nat, k: nat)
    requires size > 0 && k > 0 && |s| > size
    ensures Piece(s[size..], size, k - 1) == Piece(s, size, k)
  {
    var t := s[size..];
    var lo, lo' := k * size, (k - 1) * size;
    assert lo == lo' + size;
    if lo < |s| {
      var hi := if lo + size <= |s| then lo + size else |s|;
      assert Piece(t, size, k - 1) == t[lo' .. hi - size];
      assert t[lo' .. hi - size] == s[lo .. hi];
    }
  }
}
