/** Function helpers (`common/function.py`): a dictionary used as a function, and a memoising wrapper. */
module FunctionHelpers {
  import opened Wrappers
  import opened Seqs

  /** `dict_to_function(src)`: looks the key up in `src`; a missing key is a `KeyError`. */
  function DictToFunction<K(==, !new), V>(src: map<K, V>): (f: K -> Result<V>)
    ensures forall k :: k in src ==> f(k) == Ok(src[k])
    ensures forall k :: k !in src ==> f(k) == Err(KeyError)
  {
    k => if k in src then Ok(src[k]) else Err(KeyError)
  }

  /** `BufferdFunction`: calls `func` once per key and answers later calls from its dictionary. */
  class BufferedFunction<K(==), V> {
    /** `_func`. */
    const func: K -> V
    /** `_dict`: the results computed so far. */
    var cache: map<K, V>
    /** The keys `func` has been called on, in call order. */
    ghost var calls: seq<K>

    /** Every stored result is `func`'s, and `func` has been called exactly once for each stored key. */
    ghost predicate Valid()
      reads this
    {
      (forall k :: k in cache ==> cache[k] == func(k)) && Distinct(calls) && Elements(calls) == cache.Keys
    }

    constructor (f: K -> V)
      ensures Valid() && func == f && cache == map[] && calls == []
    {
      func, cache, calls := f, map[], [];
    }

    /**
     * `__call__`: the result of `func(key)`. Only a key not seen before
     * calls `func`, and stored entries never change.
     */
    method Call(key: K) returns (v: V)
      requires Valid()
      modifies this
      ensures Valid() && v == func(key)
      ensures cache == old(cache)[key := v] && old(cache).Keys <= cache.Keys
      ensures forall k :: k in old(cache) ==> cache[k] == old(cache)[k]
      ensures calls == if key in old(cache) then old(calls) else old(calls) + [key]
    {
      if key !in cache {
        DistinctSnoc(calls, key);
        ElementsSnoc(calls, key);
        calls := calls + [key];
        cache := cache[key := func(key)];
      }
      v := cache[key];
    }
  }

  lemma ElementsSnoc<T>(s: seq<T>, x: T)
    ensures Elements(s + [x]) == Elements(s) + {x}
  {
  }
}
