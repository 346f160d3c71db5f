/**
 * The extension as one event-driven machine: global shortcuts, hint-letter
 * keystrokes and the cancel key, all acting on the single overlay state.
 */
module Extension {
  import opened Wrappers
  import opened Elements
  import opened HintCodes
  import opened Overlay
  import opened Click
  import opened Shortcuts

  /** What reaches the extension: a keystroke seen by the host's shortcut
      table, a hint letter seen by the overlay's own listener, or the cancel key.
      The overlay's listener is bound only to the 26 letters of the key list, so
      `HintKey` carries one of those letters; `HintKey('.')` is not the `.` key. */
  datatype Input = Shortcut(descriptor: Descriptor) | HintKey(key: char) | CancelKey

  /** The outward effect of one input. */
  datatype Effect = NoEffect | Perform(action: Action) | ClickTarget(outcome: ClickOutcome)

  datatype StepResult = StepResult(state: OverlayState, effect: Effect)

  /** Reachable overlay states: an inactive overlay shows no labels, and the
      labels shown are distinct and of one length. */
  predicate Inv(s: OverlayState) {
    && (!s.isActive ==> s.hints == [])
    && (s.hints != [] ==> WellFormed(s.hints, |s.hints[0].text|))
  }

  /** One input. `elems` and `vp` are the page as an activation would scan it. */
  function Step(s: OverlayState, input: Input, elems: seq<Element>, vp: Viewport): (r: StepResult)
    ensures input.Shortcut? && s.isActive ==> r == StepResult(s, NoEffect)
    ensures input.CancelKey? ==> r == StepResult(Closed, NoEffect)
    ensures input.HintKey? && !s.isActive ==> r == StepResult(s, NoEffect)
    ensures r.effect.ClickTarget? ==>
              input.HintKey? && r.state == Closed
              && exists i :: 0 <= i < |s.hints| && s.hints[i].text == [input.key]
                             && r.effect.outcome == Resolve(s.hints[i].target)
  {
    match input
    case Shortcut(d) =>
      var fired := Fire(s.isActive, d);
      if fired.None? then StepResult(s, NoEffect)
      else if fired.value == ActivateHints then StepResult(Activate(s, elems, vp), NoEffect)
      else StepResult(s, Perform(fired.value))
    case HintKey(key) =>
      var p := Press(s, key);
      if p.clicked.None? then StepResult(p.state, NoEffect)
      else StepResult(p.state, ClickTarget(Resolve(p.clicked.value)))
    case CancelKey => StepResult(Deactivate(s), NoEffect)
  }

  /** The initial state is reachable. */
  lemma InitialInv()
    ensures Inv(Closed)
  {
  }

  /** Every input keeps the overlay state reachable. */
  lemma StepPreservesInv(s: OverlayState, input: Input, elems: seq<Element>, vp: Viewport)
    requires Inv(s)
    ensures Inv(Step(s, input, elems, vp).state)
  {
    match input
    case Shortcut(d) =>
    case HintKey(key) =>
      if s.isActive && s.hints != [] {
        PressPreservesWellFormed(s, key, |s.hints[0].text|);
      }
    case CancelKey =>
  }

  /** In a reachable state an activation shortcut either is suppressed (the
      overlay is active) or finds the overlay empty and rescans: the "labels
      present" branch of `activate` is never taken through the registered
      bindings. */
  lemma ActivationAlwaysRescans(s: OverlayState, d: Descriptor, elems: seq<Element>, vp: Viewport)
    requires Inv(s) && d in ActivationDescriptors
    ensures Step(s, Shortcut(d), elems, vp).state
              == if s.isActive then s else OverlayState(true, Hints(elems, vp))
  {
    if !s.isActive {
      ActivatorsFire(d);
    }
  }

  /** From the closed overlay: press `F`, then the two letters of the k-th
      visible candidate's code; that candidate is resolved and clicked, and
      the overlay is closed again. */
  lemma SelectByCode(elems: seq<Element>, vp: Viewport, k: nat)
    requires k < Min(|Survivors(elems, vp)|, Capacity)
    ensures var s1 := Step(Closed, Shortcut(Descriptor("F", false, false, false)), elems, vp).state;
            var r2 := Step(s1, HintKey(Code(k)[0]), elems, vp);
            var r3 := Step(r2.state, HintKey(Code(k)[1]), elems, vp);
            r2.effect == NoEffect && r3 == StepResult(Closed, ClickTarget(Resolve(Survivors(elems, vp)[k])))
  {
    ActivatorsFire(Descriptor("F", false, false, false));
    var s1 := Activate(Closed, elems, vp);
    assert Step(Closed, Shortcut(Descriptor("F", false, false, false)), elems, vp).state == s1;
    ActivateThenTypeCode(elems, vp, k);
    var code := Code(k);
    var p1 := Press(s1, code[0]);
    assert code[1..] == [code[1]];
    assert TypeKeys(p1.state, code[1..]) == Press(p1.state, code[1]);
  }
}
