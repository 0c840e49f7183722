/**
 * Start of the "equilibrated" tail of a radius-of-gyration series of
 * `n` samples: the last quarter, `(3n) // 4` onwards, with a fallback to
 * sample 1 when the floor is 0, and rejection of series of at most one sample.
 */
module Equilibration {
  import opened Wrappers

  /**
   * The window start chosen by `get_avg_rg_from_file`, or `None` when the
   * series is too short to analyse. The start is the floor of `3n / 4`,
   * lies strictly inside the series, skips sample 0, and leaves at least a
   * quarter of the series in the window.
   */
  function EquilibratedStart(n: nat): (r: Option<int>)
    ensures r.None? <==> n <= 1
    ensures r.Some? ==> 1 <= r.value < n
    ensures r.Some? ==> 4 * r.value <= 3 * n < 4 * r.value + 4
    ensures r.Some? ==> 4 * (n - r.value) >= n
  {
    var start := (n * 3) / 4;
    if start == 0 && n > 1 then Some(1)
    else if n <= 1 then None
    else Some(start)
  }

  /**
   * For every series of at least two samples the floor `(3n) // 4` is
   * already at least 1, so the `start == 0` fallback never changes the start.
   */
  lemma FallbackNeverFires(n: nat)
    requires n >= 2
    ensures (n * 3) / 4 >= 1
    ensures EquilibratedStart(n) == Some((n * 3) / 4)
  {
  }

  /** The window start on the shortest series and on a series of eight samples. */
  lemma StartBoundaryCases()
    ensures EquilibratedStart(0) == None && EquilibratedStart(1) == None
    ensures EquilibratedStart(2) == Some(1) && EquilibratedStart(3) == Some(2)
    ensures EquilibratedStart(4) == Some(3) && EquilibratedStart(5) == Some(3)
    ensures EquilibratedStart(8) == Some(6)
  {
  }
}
