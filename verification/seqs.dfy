/** Sequence helpers shared by the sections. */
module Seqs {
  /** `xs.map(f)`. */
  function Map<A, B>(f: A -> B, xs: seq<A>): (ys: seq<B>)
    ensures |ys| == |xs|
    ensures forall i :: 0 <= i < |xs| ==> ys[i] == f(xs[i])
  {
    if |xs| == 0 then [] else [f(xs[0])] + Map(f, xs[1..])
  }

  /** The positions of `[a] + xs + [b]`. */
  lemma {:induction false} Bracketed<T>(a: T, xs: seq<T>, b: T)
    ensures var r := [a] + xs + [b];
      && |r| == |xs| + 2 && r[0] == a && r[|r| - 1] == b
      && forall k :: 0 <= k < |xs| ==> r[k + 1] == xs[k]
  {
  }

  /** `xs.flatMap(f)`: the pieces `f` gives for each element, one after the
      other. */
  function FlatMap<A, B>(f: A -> seq<B>, xs: seq<A>): seq<B>
  {
    if |xs| == 0 then [] else f(xs[0]) + FlatMap(f, xs[1..])
  }

  /** Where the piece of element `k` starts: the total length of the pieces
      before it. */
  ghost function PieceStart<A, B>(f: A -> seq<B>, xs: seq<A>, k: nat): nat
    requires k <= |xs|
  {
    if k == 0 then 0 else |f(xs[0])| + PieceStart(f, xs[1..], k - 1)
  }

  /** `piece` sits in `r` from position `o` on. */
  ghost predicate PieceAt<B>(r: seq<B>, o: nat, piece: seq<B>)
  {
    o + |piece| <= |r| && r[o..o + |piece|] == piece
  }

  /** The piece of element `k` comes right after the pieces of the elements
      before it. */
  lemma {:induction false} FlatMapAt<A, B>(f: A -> seq<B>, xs: seq<A>, k: nat)
    requires k < |xs|
    ensures PieceAt(FlatMap(f, xs), PieceStart(f, xs, k), f(xs[k]))
  {
    var first := f(xs[0]);
    var rest := FlatMap(f, xs[1..]);
    assert FlatMap(f, xs) == first + rest;
    if k == 0 {
      assert (first + rest)[..|first|] == first;
    } else {
      assert xs[1..][k - 1] == xs[k];
      FlatMapAt(f, xs[1..], k - 1);
      PieceAfter(first, rest, PieceStart(f, xs[1..], k - 1), f(xs[k]));
    }
  }

  /** A piece found in `rest` is found in `first + rest`, shifted by `first`. */
  lemma {:induction false} PieceAfter<B>(first: seq<B>, rest: seq<B>, o: nat, piece: seq<B>)
    requires PieceAt(rest, o, piece)
    ensures PieceAt(first + rest, |first| + o, piece)
  {
    assert (first + rest)[|first| + o..|first| + o + |piece|] == rest[o..o + |piece|];
  }
}
