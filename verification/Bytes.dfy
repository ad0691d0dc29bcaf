/** Byte strings and the order `bytes.Compare` puts on them.

    Every key of the storage engine is a byte string, compared
    lexicographically.  `Rank` embeds that order in the reals, so that the rest
    of the model can reason about keys with ordinary arithmetic: `Compare`
    says, for all inputs, that the embedding is exact. */
module Bytes {
  newtype byte = x: int | 0 <= x < 256

  type Bytes = seq<byte>

  /** The position of a byte string in the lexicographic order: the number
      whose base-257 expansion after the point is the string, each byte
      shifted up by one. */
  function Rank(k: Bytes): (r: real)
    ensures 0.0 <= r < 1.0
    ensures r == 0.0 <==> k == []
  {
    if k == [] then 0.0 else (k[0] as real + 1.0 + Rank(k[1..])) / 257.0
  }

  /** `bytes.Compare`: negative, zero or positive. */
  function Compare(a: Bytes, b: Bytes): (c: int)
    ensures c < 0 <==> Rank(a) < Rank(b)
    ensures c == 0 <==> a == b
    ensures c == 0 <==> Rank(a) == Rank(b)
  {
    if a == [] then (if b == [] then 0 else -1)
    else if b == [] then 1
    else if a[0] < b[0] then
      assert a[0] as real + 1.0 <= b[0] as real;
      -1
    else if b[0] < a[0] then
      assert b[0] as real + 1.0 <= a[0] as real;
      1
    else
      assert a == [a[0]] + a[1..] && b == [b[0]] + b[1..];
      Compare(a[1..], b[1..])
  }

  /** Distinct byte strings have distinct ranks. */
  lemma RankInjective(a: Bytes, b: Bytes)
    ensures Rank(a) == Rank(b) <==> a == b
  {
    var _ := Compare(a, b);
  }
}
