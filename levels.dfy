/** Classification by an ascending list of thresholds: a value's level is the
    number of thresholds it has reached. Both threshold chains of the page
    (the fire-weather categories and the random danger of a map cell) are
    instances of this. */
module Levels {

  /** The thresholds are strictly increasing. */
  ghost predicate Ascending(ts: seq<real>) {
    forall i, j :: 0 <= i < j < |ts| ==> ts[i] < ts[j]
  }

  /** The number of thresholds in `ts` that `x` has reached (`t <= x`). */
  function Reached(ts: seq<real>, x: real): (n: nat)
    ensures n <= |ts|
  {
    if ts == [] then 0
    else (if ts[0] <= x then 1 else 0) + Reached(ts[1..], x)
  }

  /** A larger value never reaches fewer thresholds. */
  lemma {:induction false} ReachedMonotone(ts: seq<real>, x: real, y: real)
    requires x <= y
    ensures Reached(ts, x) <= Reached(ts, y)
  {
    if ts != [] {
      ReachedMonotone(ts[1..], x, y);
    }
  }

  /** On ascending thresholds, `x` has reached exactly the first `n` of them
      when it lies between the n-th and the (n+1)-th. */
  lemma {:induction false} ReachedBetween(ts: seq<real>, x: real, n: nat)
    requires Ascending(ts) && n <= |ts|
    requires forall i :: 0 <= i < n ==> ts[i] <= x
    requires forall i :: n <= i < |ts| ==> x < ts[i]
    ensures Reached(ts, x) == n
  {
    if ts != [] {
      var m := if n == 0 then 0 else n - 1;
      assert forall i :: 0 <= i < m ==> ts[1..][i] == ts[i + 1];
      ReachedBetween(ts[1..], x, m);
    }
  }
}
