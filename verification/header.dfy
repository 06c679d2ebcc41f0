/** Header shadow (script.js lines 100-109): on every scroll event the header
    gets the `scrolled` class when the page is scrolled more than 50 pixels
    down, and loses it otherwise. */
module Header {

  const Threshold: real := 50.0
  const ScrolledClass: string := "scrolled"

  /** The scroll handler, on the header's class list. `scrollY` is a
      floating-point pixel offset in browsers; it is modelled as a real. */
  function OnScroll(classes: set<string>, scrollY: real): (r: set<string>)
    ensures ScrolledClass in r <==> scrollY > Threshold
    ensures r - {ScrolledClass} == classes - {ScrolledClass}
  {
    if scrollY > Threshold then classes + {ScrolledClass} else classes - {ScrolledClass}
  }

  /** Replaying a trajectory of scroll events, oldest first. */
  function Replay(classes: set<string>, offsets: seq<real>): set<string>
    decreases |offsets|
  {
    if offsets == [] then classes
    else OnScroll(Replay(classes, offsets[..|offsets| - 1]), offsets[|offsets| - 1])
  }

  /** Only the latest offset matters: after any trajectory the shadow is on
      exactly when the last offset is past the threshold, and no other class
      of the header has changed. */
  lemma {:induction false} ReplayDependsOnLastOffset(classes: set<string>, offsets: seq<real>)
    requires offsets != []
    ensures ScrolledClass in Replay(classes, offsets) <==> offsets[|offsets| - 1] > Threshold
    ensures Replay(classes, offsets) - {ScrolledClass} == classes - {ScrolledClass}
  {
    if |offsets| > 1 {
      ReplayDependsOnLastOffset(classes, offsets[..|offsets| - 1]);
    }
  }

  /** Repeating an event changes nothing more. */
  lemma OnScrollIdempotent(classes: set<string>, scrollY: real)
    ensures OnScroll(OnScroll(classes, scrollY), scrollY) == OnScroll(classes, scrollY)
  {
  }

  /** The comparison is strict: exactly 50 pixels leaves the header flat,
      anything beyond gets the shadow, and a deeper offset never loses it. */
  lemma ThresholdIsStrict(classes: set<string>, y1: real, y2: real)
    requires y1 <= y2
    ensures ScrolledClass !in OnScroll(classes, 50.0)
    ensures ScrolledClass in OnScroll(classes, 50.5)
    ensures ScrolledClass in OnScroll(classes, y1) ==> ScrolledClass in OnScroll(classes, y2)
  {
  }
}
