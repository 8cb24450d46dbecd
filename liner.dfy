/** Linear nearest-neighbour search, kept in the source as a reference for the VP tree. */
module Liner {
  import opened Wrappers

  /** `sys.float_info.max`, the largest finite IEEE 754 double. */
  const FloatMax: real := 179769313486231570814527423731704356798070567525844996598917476803157260780028538760589558632766878171540458953514382464234321326889464182768467546703537516986049910576551282076245490090389328944075868508455133942304583236903222948165808559332123348274797826204144723168738177180919299881250404026184124858368.0

  /**
   * The distance the scan ends with: the smallest distance from `query` to an
   * element of `values`, or `FloatMax` when no element is closer than that.
   */
  function NearestDistance<V>(values: seq<V>, distance: (V, V) -> real, query: V): real {
    if values == [] then FloatMax
    else
      var m := NearestDistance(values[..|values| - 1], distance, query);
      var d := distance(query, values[|values| - 1]);
      if m > d then d else m
  }

  /** `NearestDistance` is the minimum of `FloatMax` and every distance. */
  lemma {:induction false} NearestDistanceIsMinimum<V>(values: seq<V>, distance: (V, V) -> real, query: V)
    ensures NearestDistance(values, distance, query) <= FloatMax
    ensures forall i :: 0 <= i < |values| ==> NearestDistance(values, distance, query) <= distance(query, values[i])
    ensures NearestDistance(values, distance, query) == FloatMax
            || exists i :: 0 <= i < |values| && distance(query, values[i]) == NearestDistance(values, distance, query)
  {
    if values != [] {
      var init := values[..|values| - 1];
      NearestDistanceIsMinimum(init, distance, query);
      forall i | 0 <= i < |init| ensures values[i] == init[i] { }
    }
  }

  /**
   * A number is `NearestDistance` exactly when it is a lower bound of
   * `FloatMax` and of every distance, and is `FloatMax` or one of the distances.
   */
  lemma NearestDistanceUnique<V>(values: seq<V>, distance: (V, V) -> real, query: V, m: real)
    requires m <= FloatMax
    requires forall i :: 0 <= i < |values| ==> m <= distance(query, values[i])
    requires m == FloatMax || exists i :: 0 <= i < |values| && distance(query, values[i]) == m
    ensures m == NearestDistance(values, distance, query)
  {
    NearestDistanceIsMinimum(values, distance, query);
  }

  /**
   * The scan of `search_nearest_neighbor`: the first element at the smallest
   * distance below `FloatMax`, or no element when none is that close.
   */
  method SearchNearestNeighbor<V>(values: seq<V>, distance: (V, V) -> real, query: V)
    returns (minD: real, minV: Option<V>)
    ensures minD == NearestDistance(values, distance, query)
    ensures minV.None? <==> forall i :: 0 <= i < |values| ==> distance(query, values[i]) >= FloatMax
    ensures minV.Some? ==> exists i :: 0 <= i < |values| && minV == Some(values[i])
                                      && distance(query, values[i]) == minD
                                      && forall j :: 0 <= j < i ==> distance(query, values[j]) > minD
  {
    minD, minV := FloatMax, None;
    ghost var at := 0;
    for k := 0 to |values|
      invariant minD == NearestDistance(values[..k], distance, query)
      invariant minV.None? <==> forall i :: 0 <= i < k ==> distance(query, values[i]) >= FloatMax
      invariant minV.None? ==> minD == FloatMax
      invariant minV.Some? ==> 0 <= at < k && minV == Some(values[at]) && distance(query, values[at]) == minD
                               && forall j :: 0 <= j < at ==> distance(query, values[j]) > minD
    {
      assert values[..k + 1][..k] == values[..k];
      var d := distance(query, values[k]);
      NearestDistanceIsMinimum(values[..k], distance, query);
      if minD > d {
        minD, minV := d, Some(values[k]);
        at := k;
      }
    }
    assert values[..|values|] == values;
  }
}
