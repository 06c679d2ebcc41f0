/** Certificate modal (script.js lines 194-240): the inline `display` style of
    the `cert-modal` element, driven by `openModal`, `closeModal` and the three
    listeners `initModal` installs (close button, click on the backdrop,
    Escape key). */
module Modal {

  import opened Wrappers

  /** The element's inline `style.display`: never set, "block" or "none". */
  datatype Display = Unset | Block | Hidden

  /** Everything that reaches the modal. */
  datatype ModalEvent =
    | OpenCall                            // openModal()
    | CloseCall                           // closeModal()
    | CloseButtonClick                    // click on the `.close-modal` control
    | WindowClick(targetIsModal: bool)    // any click; the target is the backdrop or not
    | KeyDown(key: string)                // a key press anywhere in the document

  const EscapeKey: string := "Escape"

  /** Events after which the modal is certainly not shown. Escape belongs here:
      it hides a shown modal and leaves a modal that is not shown as it is. */
  predicate Hides(e: ModalEvent) {
    || e == CloseCall
    || e == CloseButtonClick
    || e == WindowClick(true)
    || e == KeyDown(EscapeKey)
  }

  /** One event, with the modal element present. */
  function Step(d: Display, e: ModalEvent): (d': Display)
    ensures e == OpenCall ==> d' == Block
    ensures e in {CloseCall, CloseButtonClick, WindowClick(true)} ==> d' == Hidden
    ensures e == KeyDown(EscapeKey) ==> d' == (if d == Block then Hidden else d)
    ensures e == WindowClick(false) ==> d' == d
    ensures e.KeyDown? && e.key != EscapeKey ==> d' == d
  {
    match e
    case OpenCall => Block
    case CloseCall => Hidden
    case CloseButtonClick => Hidden
    case WindowClick(onModal) => if onModal then Hidden else d
    case KeyDown(key) => if key == EscapeKey && d == Block then Hidden else d
  }

  /** Every event is idempotent: delivering it twice is delivering it once. */
  lemma StepIdempotent(d: Display, e: ModalEvent)
    ensures Step(Step(d, e), e) == Step(d, e)
  {
  }

  /** Events in order, oldest first. */
  function Run(d: Display, events: seq<ModalEvent>): Display
    decreases |events|
  {
    if events == [] then d else Step(Run(d, events[..|events| - 1]), events[|events| - 1])
  }

  /** No event from position `i` on hides the modal. */
  predicate NoHideFrom(events: seq<ModalEvent>, i: int) {
    forall j :: 0 <= i <= j < |events| ==> !Hides(events[j])
  }

  /** The modal is shown after a run exactly when it was opened and not hidden
      since, or was shown to begin with and nothing has hidden it. */
  lemma {:induction false} RunShown(d: Display, events: seq<ModalEvent>)
    ensures Run(d, events) == Block <==>
      || (exists i :: 0 <= i < |events| && events[i] == OpenCall && NoHideFrom(events, i + 1))
      || (d == Block && NoHideFrom(events, 0))
    decreases |events|
  {
    if events != [] {
      var n := |events| - 1;
      var init := events[..n];
      RunShown(d, init);
      var last := events[n];
      if Hides(last) {
        assert !NoHideFrom(events, 0);
      } else if last == OpenCall {
        assert NoHideFrom(events, n + 1);
      } else {
        forall i | 0 <= i <= n ensures NoHideFrom(events, i) <==> NoHideFrom(init, i) {
          if NoHideFrom(init, i) {
            forall j | i <= j < |events| ensures !Hides(events[j]) {
              if j < n { assert events[j] == init[j]; }
            }
          }
          if NoHideFrom(events, i) {
            forall j | i <= j < |init| ensures !Hides(init[j]) {
              assert init[j] == events[j];
            }
          }
        }
        assert Step(Run(d, init), last) == Block <==> Run(d, init) == Block;
        if Run(d, events) == Block && !(d == Block && NoHideFrom(events, 0)) {
          var i :| 0 <= i < n && init[i] == OpenCall && NoHideFrom(init, i + 1);
          assert events[i] == OpenCall;
        }
        if exists i :: 0 <= i < |events| && events[i] == OpenCall && NoHideFrom(events, i + 1) {
          var i :| 0 <= i < |events| && events[i] == OpenCall && NoHideFrom(events, i + 1);
          assert init[i] == OpenCall;
        }
      }
    }
  }

  /** The page's view of the element: `None` when there is no `cert-modal`. */
  datatype Outcome = Handled(modal: Option<Display>) | TypeError

  /** One event, with the element possibly absent. `openModal` and
      `closeModal` check for the element and do nothing without it; the
      backdrop click can never target a missing element; the close-button
      and Escape listeners read `modal.style` unguarded and throw. */
  function Dispatch(modal: Option<Display>, e: ModalEvent): (r: Outcome)
    ensures modal.Some? ==> r == Handled(Some(Step(modal.value, e)))
    ensures modal.None? ==> (r == TypeError <==> e == CloseButtonClick || e == KeyDown(EscapeKey))
    ensures modal.None? && r.Handled? ==> r.modal == None
  {
    match modal
    case Some(d) => Handled(Some(Step(d, e)))
    case None =>
      match e
      case CloseButtonClick => TypeError
      case KeyDown(key) => if key == EscapeKey then TypeError else Handled(None)
      case _ => Handled(None)
  }

  /** Opening, then Escape; Escape on a modal that is not shown, even one
      never shown, is a no-op. */
  lemma EscapeScenarios()
    ensures Step(Step(Unset, OpenCall), KeyDown(EscapeKey)) == Hidden
    ensures Step(Unset, KeyDown(EscapeKey)) == Unset
    ensures Step(Hidden, KeyDown(EscapeKey)) == Hidden
  {
  }
}
