/** Iterator helpers (`common/iterator.py`). */
module IteratorHelpers {
  import opened Seqs

  /** `deep2_map`: one inner result per outer item, each `func` applied element by element. */
  function Deep2Map<P, R>(func: P -> R, src: seq<seq<P>>): (r: seq<seq<R>>)
    ensures |r| == |src|
    ensures forall k :: 0 <= k < |src| ==> |r[k]| == |src[k]|
    ensures forall k, j :: 0 <= k < |src| && 0 <= j < |src[k]| ==> r[k][j] == func(src[k][j])
  {
    Map(src, s => Map(s, func))
  }

  /** `len_iterator`: counts the items. */
  method LenIterator<T>(itr: seq<T>) returns (count: nat)
    ensures count == |itr|
  {
    count := 0;
    for k := 0 to |itr|
      invariant count == k
    {
      count := count + 1;
    }
  }
}
