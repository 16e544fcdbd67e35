/** Counting the threads of an interleaved system that are in a given role
    (the ghost holder counts of the lock invariants). */
module Threads {

  /** Number of threads in `ts` that satisfy `p`. */
  function Count<P>(ts: seq<P>, p: P -> bool): (n: nat)
    ensures n <= |ts|
    ensures n == 0 <==> forall i | 0 <= i < |ts| :: !p(ts[i])
  {
    if |ts| == 0 then 0
    else Count(ts[..|ts| - 1], p) + (if p(ts[|ts| - 1]) then 1 else 0)
  }

  function Ind(b: bool): nat {
    if b then 1 else 0
  }

  /** Replacing the state of one thread changes the count only by that thread. */
  lemma {:induction false} CountUpdate<P>(ts: seq<P>, i: nat, x: P, p: P -> bool)
    requires i < |ts|
    ensures Count(ts[i := x], p) == Count(ts, p) - Ind(p(ts[i])) + Ind(p(x))
    decreases |ts|
  {
    var last := |ts| - 1;
    if i == last {
      assert ts[i := x][..last] == ts[..last];
    } else {
      assert ts[i := x][..last] == ts[..last][i := x];
      CountUpdate(ts[..last], i, x, p);
    }
  }
}
