/** Facts about concatenation and slicing that the proofs use as single steps. */
module Seqs {

  /** Appending b and then c appends b + c. */
  lemma AppendAssoc<T>(a: seq<T>, b: seq<T>, c: seq<T>)
    ensures a + b + c == a + (b + c)
  {
  }

  /** The middle piece of a three-piece concatenation, sliced back out. */
  lemma MiddleOf<T>(a: seq<T>, b: seq<T>, c: seq<T>)
    ensures (a + b + c)[|a| .. |a| + |b|] == b
  {
    assert (a + b + c)[..|a| + |b|] == a + b;
  }

  /** Two elements of the middle piece of a three-piece concatenation, found in the whole. */
  lemma PairInMiddle<T>(a: seq<T>, b: seq<T>, c: seq<T>, j: int, pair: seq<T>)
    requires 0 <= j && j + 2 <= |b| && b[j .. j + 2] == pair
    ensures |a| + j + 2 <= |a + b + c| && (a + b + c)[|a| + j .. |a| + j + 2] == pair
  {
    MiddleOf(a, b, c);
    PairInSlice(a + b + c, |a|, b, j, pair);
  }

  /** Two elements of a slice of r are two elements of r. */
  lemma PairInSlice<T>(r: seq<T>, b: int, data: seq<T>, j: int, pair: seq<T>)
    requires 0 <= b && b + |data| <= |r| && r[b .. b + |data|] == data
    requires 0 <= j && j + 2 <= |data| && data[j .. j + 2] == pair
    ensures b + j + 2 <= |r| && r[b + j .. b + j + 2] == pair
  {
    assert r[b .. b + |data|][j] == data[j];
    assert r[b .. b + |data|][j + 1] == data[j + 1];
  }
}
