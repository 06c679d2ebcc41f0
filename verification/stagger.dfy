/** Staggered entrance of timeline items and skill cards (script.js lines
    40-84). Each intersection-observer callback walks its batch of entries;
    every entry that is intersecting gets a timer whose delay is its position
    in that batch times a fixed step. The position counts every entry of the
    batch, intersecting or not, and restarts at zero in the next batch. */
module Stagger {

  /** The two animated groups and their delay steps in milliseconds. */
  datatype Group = TimelineItems | SkillCards

  function StepOf(g: Group): (ms: nat)
    ensures ms > 0 && ms % 100 == 0
    ensures g == TimelineItems ==> ms == 300
    ensures g == SkillCards ==> ms == 200
  {
    match g
    case TimelineItems => 300
    case SkillCards => 200
  }

  /** A scheduled reveal: the entry's position in its batch and the delay. */
  datatype Timer = Timer(entry: nat, delay: nat)

  /** Number of intersecting entries in a batch. */
  function CountIntersecting(batch: seq<bool>): (n: nat)
    ensures n <= |batch|
  {
    if batch == [] then 0
    else CountIntersecting(batch[..|batch| - 1]) + (if batch[|batch| - 1] then 1 else 0)
  }

  /** The count is the multiplicity of `true` among the entries. */
  lemma {:induction false} CountIsMultiplicity(batch: seq<bool>)
    ensures CountIntersecting(batch) == multiset(batch)[true]
    decreases |batch|
  {
    if batch != [] {
      var last := |batch| - 1;
      assert batch == batch[..last] + [batch[last]];
      CountIsMultiplicity(batch[..last]);
    }
  }

  /** The callback `entries.forEach((entry, index) => ...)`: one timer per
      intersecting entry, in batch order, delayed by `index * step`. */
  function Schedule(g: Group, batch: seq<bool>): (timers: seq<Timer>)
    ensures |timers| == CountIntersecting(batch)
    ensures forall t :: t in timers ==>
      t.entry < |batch| && batch[t.entry] && t.delay == t.entry * StepOf(g)
    ensures forall i :: 0 <= i < |batch| && batch[i] ==> Timer(i, i * StepOf(g)) in timers
    ensures forall i, j :: 0 <= i < j < |timers| ==>
      timers[i].entry < timers[j].entry && timers[i].delay < timers[j].delay
    decreases |batch|
  {
    if batch == [] then []
    else
      var n := |batch| - 1;
      var earlier := Schedule(g, batch[..n]);
      assert forall i :: 0 <= i < n ==> batch[..n][i] == batch[i];
      if batch[n] then earlier + [Timer(n, n * StepOf(g))] else earlier
  }

  /** The observer callback as written: a single pass over the batch. */
  method ScheduleBatch(g: Group, batch: seq<bool>) returns (timers: seq<Timer>)
    ensures timers == Schedule(g, batch)
  {
    var step := StepOf(g);
    timers := [];
    var index := 0;
    while index < |batch|
      invariant index <= |batch|
      invariant timers == Schedule(g, batch[..index])
    {
      assert batch[..index + 1][..index] == batch[..index];
      if batch[index] {
        timers := timers + [Timer(index, index * step)];
      }
      index := index + 1;
    }
    assert batch[..index] == batch;
  }

  /** The first entry of a batch is revealed at once, wherever it sits among
      all the observed elements: the delay is relative to the batch. */
  lemma FirstEntryImmediate(g: Group, batch: seq<bool>)
    requires |batch| > 0 && batch[0]
    ensures var timers := Schedule(g, batch); |timers| > 0 && timers[0] == Timer(0, 0)
  {
    var timers := Schedule(g, batch);
    assert Timer(0, 0) in timers;
    assert timers[0].entry == 0 by {
      assert forall k :: 0 < k < |timers| ==> timers[0].entry < timers[k].entry;
    }
  }
}
