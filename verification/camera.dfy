/** Camera acquisition: before the scanning loop starts, device indices
    0, 1 and 2 are tried in order and the first one that opens is kept.
    Whether a device opens is a property of the machine, so it is passed in
    as the predicate `opens`. */
module Camera {
  import opened Wrappers

  /** Number of device indices that are probed (`range(3)`). */
  const ProbeCount: nat := 3

  /** Probe indices `i`, `i + 1`, ..., `ProbeCount - 1` in order and return the
      first one that opens, or `None` when none of them does. */
  function ProbeFrom(opens: nat -> bool, i: nat): (r: Option<nat>)
    requires i <= ProbeCount
    ensures r.Some? ==> i <= r.value < ProbeCount && opens(r.value)
    ensures r.Some? ==> forall j :: i <= j < r.value ==> !opens(j)
    ensures r.None? <==> forall j :: i <= j < ProbeCount ==> !opens(j)
    decreases ProbeCount - i
  {
    if i == ProbeCount then None
    else if opens(i) then Some(i)
    else ProbeFrom(opens, i + 1)
  }

  /** The index the scanner ends up using: the smallest index below
      `ProbeCount` that opens, or `None` when no camera is available (the
      program then reports the failure and returns before scanning). */
  function Probe(opens: nat -> bool): (r: Option<nat>)
    ensures r.Some? <==> exists k :: 0 <= k < ProbeCount && opens(k)
    ensures r.Some? ==> r.value < ProbeCount && opens(r.value)
    ensures r.Some? ==> forall j :: 0 <= j < r.value ==> !opens(j)
  {
    ProbeFrom(opens, 0)
  }

}
