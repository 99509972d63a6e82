/** chunk() of cluster.ts: bounded batches, in order. */
module Chunks {
  import opened Wrappers

  function Flatten<T>(batches: seq<seq<T>>): seq<T> {
    if batches == [] then [] else Flatten(batches[..|batches| - 1]) + batches[|batches| - 1]
  }

  lemma FlattenPush<T>(batches: seq<seq<T>>, batch: seq<T>)
    ensures Flatten(batches + [batch]) == Flatten(batches) + batch
  {
    assert (batches + [batch])[..|batches|] == batches;
  }

  /** Splits a list into non-empty batches of at most `size`, all full but the last, losing nothing. */
  method Chunk<T>(items: seq<T>, size: nat) returns (batches: seq<seq<T>>)
    requires size >= 1
    ensures Flatten(batches) == items
    ensures forall b | 0 <= b < |batches| :: 1 <= |batches[b]| <= size
    ensures forall b | 0 <= b < |batches| - 1 :: |batches[b]| == size
  {
    batches := [];
    var i := 0;
    while i < |items|
      invariant Flatten(batches) == items[..Min(i, |items|)]
      invariant forall b | 0 <= b < |batches| :: 1 <= |batches[b]| <= size
      invariant i <= |items| ==> forall b | 0 <= b < |batches| :: |batches[b]| == size
      invariant forall b | 0 <= b < |batches| - 1 :: |batches[b]| == size
      decreases |items| - i
    {
      var batch := items[i..Min(i + size, |items|)];
      FlattenPush(batches, batch);
      assert items[..i] + batch == items[..Min(i + size, |items|)];
      batches := batches + [batch];
      i := i + size;
    }
    assert items[..Min(i, |items|)] == items;
  }
}
