/** What a barrier promises: a party leaves its k-th wait only after every party
    has entered its k-th wait. */
module Barrier {

  /** Party t, having entered some number of waits, may leave the latest. */
  ghost predicate MayLeave(entered: seq<nat>, t: nat)
    requires t < |entered|
  {
    AllEntered(entered, entered[t])
  }

  ghost predicate AllEntered(entered: seq<nat>, k: nat) {
    forall u :: 0 <= u < |entered| ==> entered[u] >= k
  }

  /** The law every run keeps: whatever wait a party has left, all have entered. */
  ghost predicate Law(entered: seq<nat>, left: seq<nat>) {
    && |left| == |entered|
    && (forall u :: 0 <= u < |left| ==> left[u] <= entered[u] <= left[u] + 1 && AllEntered(entered, left[u]))
  }

  /** Entering is possible only outside a wait. */
  lemma EnterKeepsLaw(entered: seq<nat>, left: seq<nat>, t: nat)
    requires Law(entered, left) && t < |entered| && left[t] == entered[t]
    ensures Law(entered[t := entered[t] + 1], left)
  {
  }

  lemma LeaveKeepsLaw(entered: seq<nat>, left: seq<nat>, t: nat)
    requires Law(entered, left) && t < |entered| && left[t] < entered[t] && MayLeave(entered, t)
    ensures Law(entered, left[t := entered[t]])
  {
  }

  /** Completed waits of any two parties differ by at most one. */
  lemma LawBoundsSkew(entered: seq<nat>, left: seq<nat>, t: nat, u: nat)
    requires Law(entered, left) && t < |entered| && u < |entered|
    ensures left[t] <= left[u] + 1 && left[t] <= entered[u] <= left[t] + 2
  {
    assert AllEntered(entered, left[t]) && AllEntered(entered, left[u]);
  }
}
