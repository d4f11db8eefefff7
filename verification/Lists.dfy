/** Picking elements out of a list. */
module Lists {

  /** `ys` are the elements of `xs` at the positions `at`, in order. */
  ghost predicate PicksAt<T>(xs: seq<T>, at: seq<nat>, ys: seq<T>) {
    && |at| == |ys| && (forall j, k :: 0 <= j < k < |at| ==> at[j] < at[k])
    && (forall k :: 0 <= k < |at| ==> at[k] < |xs| && ys[k] == xs[at[k]])
  }

  /** The same positions behind one more element in front. */
  function Shifted(at: seq<nat>): (r: seq<nat>)
    ensures |r| == |at| && forall k :: 0 <= k < |r| ==> r[k] == at[k] + 1
  {
    seq(|at|, k requires 0 <= k < |at| => at[k] + 1)
  }

  lemma ShiftedHas(at: seq<nat>, i: nat)
    ensures i in Shifted(at) <==> i > 0 && i - 1 in at
    ensures i in [0] + Shifted(at) <==> i == 0 || i - 1 in at
  {
    if i > 0 && i - 1 in at {
      var k :| 0 <= k < |at| && at[k] == i - 1;
      assert Shifted(at)[k] == i;
    }
    if i in Shifted(at) {
      var k :| 0 <= k < |at| && Shifted(at)[k] == i;
      assert at[k] == i - 1;
    }
  }

  /** Leaving out the first element. */
  lemma PickLater<T>(xs: seq<T>, at: seq<nat>, ys: seq<T>)
    requires xs != [] && PicksAt(xs[1..], at, ys)
    ensures PicksAt(xs, Shifted(at), ys)
  {
  }

  /** Taking it. */
  lemma PickFirst<T>(xs: seq<T>, at: seq<nat>, ys: seq<T>)
    requires xs != [] && PicksAt(xs[1..], at, ys)
    ensures PicksAt(xs, [0] + Shifted(at), [xs[0]] + ys)
  {
  }
}
