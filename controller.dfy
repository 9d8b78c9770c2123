/**
 * One VR controller's input handling: the visual attached on "connected",
 * removed on "disconnected", and the `isSelecting` flag driven by
 * "selectstart" and "selectend".
 */
module Controllers {
  import opened Wrappers

  /** The visual built for a controller: a pointer line or a gaze reticle (a ring mesh). */
  datatype Visual = Line | Ring

  /** The target-ray mode for which each visual is built. */
  function TargetRayModeOf(v: Visual): string
  {
    match v
    case Line => "tracked-pointer"
    case Ring => "gaze"
  }

  /**
   * The visual for a device's target-ray mode; no visual (`undefined`) for a
   * mode the dispatch does not name. It is the inverse of TargetRayModeOf.
   */
  function BuildController(targetRayMode: string): (v: Option<Visual>)
    ensures forall w: Visual :: v == Some(w) <==> TargetRayModeOf(w) == targetRayMode
  {
    if targetRayMode == "tracked-pointer" then Some(Line)
    else if targetRayMode == "gaze" then Some(Ring)
    else None
  }

  /** The children list and the selecting flag of a controller. */
  datatype ControllerState = ControllerState(children: seq<Visual>, isSelecting: bool)

  /** A controller as the XR runtime hands it out: no children, flag unset. */
  const Initial := ControllerState([], false)

  /** The four events a controller listens to; "connected" carries the device's target-ray mode. */
  datatype Event = SelectStart | SelectEnd | Connected(targetRayMode: string) | Disconnected

  predicate IsSelectionEvent(e: Event)
  {
    e.SelectStart? || e.SelectEnd?
  }

  /** The effect of one event on a controller. */
  function Step(s: ControllerState, e: Event): ControllerState
  {
    match e
    case SelectStart => s.(isSelecting := true)
    case SelectEnd => s.(isSelecting := false)
    case Connected(mode) =>
      (match BuildController(mode)
       case Some(v) => s.(children := s.children + [v])
       case None => s)
    case Disconnected => if s.children == [] then s else s.(children := s.children[1..])
  }

  /** The effect of a sequence of events, delivered in order. */
  function Run(s: ControllerState, es: seq<Event>): ControllerState
    decreases |es|
  {
    if es == [] then s else Step(Run(s, es[..|es| - 1]), es[|es| - 1])
  }

  /** The value the last "selectstart" or "selectend" of `es` sets the flag to, if there is one. */
  function LastSelection(es: seq<Event>): Option<bool>
    decreases |es|
  {
    if es == [] then None
    else match es[|es| - 1]
      case SelectStart => Some(true)
      case SelectEnd => Some(false)
      case _ => LastSelection(es[..|es| - 1])
  }

  /** `es` without its selection events. */
  function WithoutSelection(es: seq<Event>): (r: seq<Event>)
    ensures forall e :: e in r <==> e in es && !IsSelectionEvent(e)
    decreases |es|
  {
    if es == [] then []
    else WithoutSelection(es[..|es| - 1]) + (if IsSelectionEvent(es[|es| - 1]) then [] else [es[|es| - 1]])
  }

  /** A controller object: its children list and `userData.isSelecting`, updated in place by its event listeners. */
  class Controller {
    var children: seq<Visual>
    var isSelecting: bool

    function State(): ControllerState
      reads this
    {
      ControllerState(children, isSelecting)
    }

    constructor ()
      ensures State() == Initial
    {
      children := [];
      isSelecting := false;
    }

    /** "selectstart": set the flag, whatever it was. */
    method OnSelectStart()
      modifies this`isSelecting
      ensures isSelecting
      ensures children == old(children)
    {
      isSelecting := true;
    }

    /** "selectend": clear the flag, whatever it was. */
    method OnSelectEnd()
      modifies this`isSelecting
      ensures !isSelecting
      ensures children == old(children)
    {
      isSelecting := false;
    }

    /**
     * "connected": add the visual built for the mode. Adding `undefined` (an
     * unnamed mode) leaves the children as they are.
     */
    method OnConnected(targetRayMode: string)
      modifies this`children
      ensures isSelecting == old(isSelecting)
      ensures targetRayMode == "tracked-pointer" ==> children == old(children) + [Line]
      ensures targetRayMode == "gaze" ==> children == old(children) + [Ring]
      ensures BuildController(targetRayMode).None? ==> children == old(children)
    {
      var visual := BuildController(targetRayMode);
      if visual.Some? {
        children := children + [visual.value];
      }
    }

    /**
     * "disconnected": remove the first child; the others keep their order.
     * With no children, `children[0]` is `undefined` and nothing is removed.
     */
    method OnDisconnected()
      modifies this`children
      ensures isSelecting == old(isSelecting)
      ensures old(children) != [] ==> children == old(children)[1..]
      ensures old(children) == [] ==> children == []
    {
      if children != [] {
        children := children[1..];
      }
    }

    /** Deliver one event to the listener registered for it. */
    method Handle(e: Event)
      modifies this
      ensures State() == Step(old(State()), e)
    {
      match e
      case SelectStart => OnSelectStart();
      case SelectEnd => OnSelectEnd();
      case Connected(mode) => OnConnected(mode);
      case Disconnected => OnDisconnected();
    }
  }

  // ------------------------------------------------------------------ lemmas

  /** The flag is decided by the last selection event alone; with none, it keeps its starting value. */
  lemma {:induction false} FlagFollowsLastSelection(s: ControllerState, es: seq<Event>)
    ensures Run(s, es).isSelecting == match LastSelection(es) case Some(b) => b case None => s.isSelecting
    decreases |es|
  {
    if es != [] {
      FlagFollowsLastSelection(s, es[..|es| - 1]);
    }
  }

  lemma RunSnoc(s: ControllerState, es: seq<Event>, e: Event)
    ensures Run(s, es + [e]) == Step(Run(s, es), e)
  {
    assert (es + [e])[..|es|] == es;
  }

  /** A connect or disconnect changes the children the same way whatever the flag is. */
  lemma StepChildrenIgnoreFlag(a: ControllerState, b: ControllerState, e: Event)
    requires a.children == b.children
    ensures Step(a, e).children == Step(b, e).children
  {
  }

  /** Selection events never touch the children: dropping them from any run leaves the children the same. */
  lemma {:induction false} SelectionKeepsChildren(s: ControllerState, es: seq<Event>)
    ensures Run(s, es).children == Run(s, WithoutSelection(es)).children
    decreases |es|
  {
    if es != [] {
      var n := |es| - 1;
      SelectionKeepsChildren(s, es[..n]);
      var front := WithoutSelection(es[..n]);
      if IsSelectionEvent(es[n]) {
        assert WithoutSelection(es) == front;
      } else {
        assert WithoutSelection(es) == front + [es[n]];
        RunSnoc(s, front, es[n]);
        StepChildrenIgnoreFlag(Run(s, es[..n]), Run(s, front), es[n]);
      }
    }
  }

  /** Every attached visual was there at the start or was built for a "connected" event of the run. */
  lemma {:induction false} ChildrenWereBuilt(s: ControllerState, es: seq<Event>, v: Visual)
    requires v in Run(s, es).children
    ensures v in s.children || Connected(TargetRayModeOf(v)) in es
    decreases |es|
  {
    if es != [] {
      var n := |es| - 1;
      var before := Run(s, es[..n]);
      if v in before.children {
        ChildrenWereBuilt(s, es[..n], v);
        if v !in s.children {
          assert Connected(TargetRayModeOf(v)) in es[..n];
        }
      } else {
        assert es[n].Connected? && BuildController(es[n].targetRayMode) == Some(v);
        assert es[n] == Connected(TargetRayModeOf(v));
      }
    }
  }

  /**
   * A connect / select-start / select-end / disconnect cycle on a controller
   * with no visual leaves it with no visual and the flag cleared, whatever the mode.
   */
  lemma ConnectionCycle(s: ControllerState, mode: string)
    requires s.children == []
    ensures Run(s, [Connected(mode), SelectStart, SelectEnd, Disconnected]) == Initial
  {
    assert [] + [Connected(mode)] == [Connected(mode)];
    assert [Connected(mode)] + [SelectStart] == [Connected(mode), SelectStart];
    assert [Connected(mode), SelectStart] + [SelectEnd] == [Connected(mode), SelectStart, SelectEnd];
    assert [Connected(mode), SelectStart, SelectEnd] + [Disconnected] == [Connected(mode), SelectStart, SelectEnd, Disconnected];
    RunSnoc(s, [], Connected(mode));
    RunSnoc(s, [Connected(mode)], SelectStart);
    RunSnoc(s, [Connected(mode), SelectStart], SelectEnd);
    RunSnoc(s, [Connected(mode), SelectStart, SelectEnd], Disconnected);
  }

  /**
   * Connecting twice without a disconnect in between attaches two visuals,
   * and "disconnected" then removes the OLDER one: the newer stays attached.
   */
  lemma DoubleConnectLeavesSecondVisual(first: Visual, second: Visual)
    ensures Run(Initial, [Connected(TargetRayModeOf(first)), Connected(TargetRayModeOf(second)), Disconnected]).children == [second]
  {
    var c1, c2 := Connected(TargetRayModeOf(first)), Connected(TargetRayModeOf(second));
    assert [] + [c1] == [c1] && [c1] + [c2] == [c1, c2] && [c1, c2] + [Disconnected] == [c1, c2, Disconnected];
    RunSnoc(Initial, [], c1);
    RunSnoc(Initial, [c1], c2);
    RunSnoc(Initial, [c1, c2], Disconnected);
  }
}
