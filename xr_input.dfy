/**
 * The two controllers of the XR session, each with its own copy of the same
 * four listeners. An event reaches only the controller it is fired on.
 */
module XrInput {
  import opened Controllers

  /** The controller index passed to the runtime: 0 or 1. */
  datatype Slot = First | Second

  datatype InputState = InputState(controller1: ControllerState, controller2: ControllerState)

  /** An event fired on one of the two controllers. */
  datatype SlotEvent = SlotEvent(slot: Slot, event: Event)

  /** The effect of one event on the pair: only the addressed controller steps. */
  function Deliver(st: InputState, se: SlotEvent): InputState
  {
    match se.slot
    case First => st.(controller1 := Step(st.controller1, se.event))
    case Second => st.(controller2 := Step(st.controller2, se.event))
  }

  function DeliverAll(st: InputState, ses: seq<SlotEvent>): InputState
    decreases |ses|
  {
    if ses == [] then st else Deliver(DeliverAll(st, ses[..|ses| - 1]), ses[|ses| - 1])
  }

  /** The events of `ses` addressed to `slot`, in order. */
  function EventsFor(ses: seq<SlotEvent>, slot: Slot): (r: seq<Event>)
    ensures |r| <= |ses|
    decreases |ses|
  {
    if ses == [] then []
    else
      var last := ses[|ses| - 1];
      EventsFor(ses[..|ses| - 1], slot) + (if last.slot == slot then [last.event] else [])
  }

  /**
   * The controllers are independent: after any interleaving of events, each
   * controller is exactly where its own events alone would have taken it.
   */
  lemma {:induction false} ControllersIndependent(st: InputState, ses: seq<SlotEvent>)
    ensures DeliverAll(st, ses).controller1 == Run(st.controller1, EventsFor(ses, First))
    ensures DeliverAll(st, ses).controller2 == Run(st.controller2, EventsFor(ses, Second))
    decreases |ses|
  {
    if ses != [] {
      var n := |ses| - 1;
      ControllersIndependent(st, ses[..n]);
      var e := ses[n].event;
      if ses[n].slot == First {
        RunSnoc(st.controller1, EventsFor(ses[..n], First), e);
        assert EventsFor(ses, Second) == EventsFor(ses[..n], Second);
      } else {
        RunSnoc(st.controller2, EventsFor(ses[..n], Second), e);
        assert EventsFor(ses, First) == EventsFor(ses[..n], First);
      }
    }
  }

  /** The two controller objects and their listeners. */
  class Session {
    const controller1: Controller
    const controller2: Controller

    ghost predicate Valid()
      reads this
    {
      controller1 != controller2
    }

    function State(): InputState
      reads this, controller1, controller2
    {
      InputState(controller1.State(), controller2.State())
    }

    /** Two distinct controller objects, both with no visual and the flag unset. */
    constructor ()
      ensures Valid()
      ensures fresh(controller1) && fresh(controller2)
      ensures State() == InputState(Initial, Initial)
    {
      controller1 := new Controller();
      controller2 := new Controller();
    }

    function Target(slot: Slot): Controller
      reads this
    {
      match slot
      case First => controller1
      case Second => controller2
    }

    /** Fire `e` on the controller in `slot`; the other controller is not touched. */
    method Fire(slot: Slot, e: Event)
      requires Valid()
      modifies Target(slot)
      ensures State() == Deliver(old(State()), SlotEvent(slot, e))
      ensures slot == First ==> controller2.State() == old(controller2.State())
      ensures slot == Second ==> controller1.State() == old(controller1.State())
    {
      Target(slot).Handle(e);
    }
  }
}
