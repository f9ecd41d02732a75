/** The strict-improvement scan behind both the minimax loop (game/minimax.py) and `np.argmax`:
    the first candidate is always taken, and a later one replaces the current best only when it
    is strictly better, so the first of several equal optima wins. */
module Choice {

  /** `x` strictly beats `y`: larger when maximizing, smaller when minimizing. */
  predicate Better(maximizing: bool, x: real, y: real)
  {
    if maximizing then x > y else x < y
  }

  /** Continues the scan at position `k` with `best` the index kept so far. */
  function Scan(maximizing: bool, v: seq<real>, k: nat, best: nat): (i: nat)
    requires best < k <= |v|
    requires forall j :: 0 <= j < k ==> !Better(maximizing, v[j], v[best])
    requires forall j :: 0 <= j < best ==> Better(maximizing, v[best], v[j])
    ensures best <= i < |v|
    ensures forall j :: 0 <= j < |v| ==> !Better(maximizing, v[j], v[i])
    ensures forall j :: 0 <= j < i ==> Better(maximizing, v[i], v[j])
    decreases |v| - k
  {
    if k == |v| then best
    else if Better(maximizing, v[k], v[best]) then
      assert forall j :: 0 <= j < k + 1 ==> !Better(maximizing, v[j], v[k]) by {
        forall j | 0 <= j < k + 1 ensures !Better(maximizing, v[j], v[k]) {
          if j < k { assert !Better(maximizing, v[j], v[best]); }
        }
      }
      Scan(maximizing, v, k + 1, k)
    else Scan(maximizing, v, k + 1, best)
  }

  /** The index the scan keeps: an optimum of `v`, and every earlier entry is strictly worse. */
  function FirstBest(maximizing: bool, v: seq<real>): (i: nat)
    requires |v| > 0
    ensures i < |v|
    ensures forall j :: 0 <= j < |v| ==> !Better(maximizing, v[j], v[i])
    ensures forall j :: 0 <= j < i ==> Better(maximizing, v[i], v[j])
  {
    Scan(maximizing, v, 1, 0)
  }

  /** The two properties of `FirstBest` determine the index: no other index has both. */
  lemma FirstBestUnique(maximizing: bool, v: seq<real>, i: nat)
    requires i < |v|
    requires forall j :: 0 <= j < |v| ==> !Better(maximizing, v[j], v[i])
    requires forall j :: 0 <= j < i ==> Better(maximizing, v[i], v[j])
    ensures FirstBest(maximizing, v) == i
  {
  }
}
