/** Scroll reveal (script.js lines 25-38): each observer callback adds the
    `active` class to every entry of its batch that is intersecting. Nothing
    ever removes the class, so a revealed section stays revealed. */
module Reveal {

  /** Observed elements, identified by their position in the document. */
  type ElementId = nat

  /** One observer entry: which observed element, and whether it is in view. */
  datatype Entry = Entry(target: ElementId, isIntersecting: bool)

  /** The set of elements carrying `active` after one callback. */
  function RevealBatch(active: set<ElementId>, entries: seq<Entry>): (r: set<ElementId>)
    ensures active <= r
    ensures forall x :: x in r <==>
      x in active || exists i :: 0 <= i < |entries| && entries[i] == Entry(x, true)
    decreases |entries|
  {
    if entries == [] then active
    else
      var n := |entries| - 1;
      var before := RevealBatch(active, entries[..n]);
      assert forall i :: 0 <= i < n ==> entries[..n][i] == entries[i];
      if entries[n].isIntersecting then before + {entries[n].target} else before
  }

  /** Callbacks one after another. */
  function RevealAll(active: set<ElementId>, batches: seq<seq<Entry>>): set<ElementId>
    decreases |batches|
  {
    if batches == [] then active
    else RevealBatch(RevealAll(active, batches[..|batches| - 1]), batches[|batches| - 1])
  }

  /** However the element scrolls in and out of view later, a revealed
      element keeps its `active` class. */
  lemma {:induction false} RevealIsPermanent(active: set<ElementId>, batches: seq<seq<Entry>>)
    ensures active <= RevealAll(active, batches)
    decreases |batches|
  {
    if batches != [] {
      RevealIsPermanent(active, batches[..|batches| - 1]);
    }
  }

  /** Delivering the same batch again reveals nothing new. */
  lemma RevealBatchIdempotent(active: set<ElementId>, entries: seq<Entry>)
    ensures RevealBatch(RevealBatch(active, entries), entries) == RevealBatch(active, entries)
  {
  }
}
