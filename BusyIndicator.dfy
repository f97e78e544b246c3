/** The busy indicator: an `IsBusy` flag, the busy content that is shown either at once or
    when a "display after" timer fires, and the two visual state groups that follow them. */
module BusyIndicator {

  /** `VisualStates`: the state names of the two groups. */
  const StateBusy: string := "Busy"
  const StateIdle: string := "Idle"
  const StateVisible: string := "Visible"
  const StateHidden: string := "Hidden"

  /** `TimeSpan.FromSeconds(0.1)`, in 100-nanosecond ticks. */
  const DefaultDisplayAfter: nat := 1_000_000

  /** The largest interval `DispatcherTimer.Interval` accepts: `int.MaxValue` milliseconds, in
      ticks. */
  const MaxTimerInterval: nat := 2147483647 * 10000

  /** The state of the busy group for `isBusy`. */
  function BusyStateName(isBusy: bool): (name: string)
    ensures name == StateBusy <==> isBusy
    ensures name == StateIdle <==> !isBusy
  {
    if isBusy then StateBusy else StateIdle
  }

  /** The state of the visibility group for `isContentVisible`. */
  function VisibilityStateName(isContentVisible: bool): (name: string)
    ensures name == StateVisible <==> isContentVisible
    ensures name == StateHidden <==> !isContentVisible
  {
    if isContentVisible then StateVisible else StateHidden
  }

  class BusyIndicator {
    var isBusy: bool
    /** `DisplayAfter`, in ticks. */
    var displayAfter: nat
    var isContentVisible: bool
    /** Whether `_displayAfterTimer` is running, and its interval. */
    var timerRunning: bool
    var timerInterval: nat
    /** The states the visual state manager was last sent to; empty before the template is
        applied. */
    var busyState: string
    var visibilityState: string

    /** Not busy means hidden with the timer stopped; a running timer means the content is
        still hidden; the visual states, once set, show `isBusy` and `isContentVisible`. */
    ghost predicate Valid()
      reads this
    {
      (!isBusy ==> !isContentVisible && !timerRunning)
      && (timerRunning ==> !isContentVisible)
      && (busyState == "" || (busyState == BusyStateName(isBusy) && visibilityState == VisibilityStateName(isContentVisible)))
    }

    constructor()
      ensures Valid()
      ensures !isBusy && !isContentVisible && !timerRunning && displayAfter == DefaultDisplayAfter
      ensures busyState == "" && visibilityState == ""
    {
      isBusy := false;
      displayAfter := DefaultDisplayAfter;
      isContentVisible := false;
      timerRunning := false;
      timerInterval := 0;
      busyState := "";
      visibilityState := "";
    }

    /** `ChangeVisualState`: both groups go to the states of the current flags. */
    method ChangeVisualState()
      modifies this
      ensures busyState == BusyStateName(isBusy) && visibilityState == VisibilityStateName(isContentVisible)
      ensures isBusy == old(isBusy) && isContentVisible == old(isContentVisible)
      ensures timerRunning == old(timerRunning) && timerInterval == old(timerInterval)
      ensures displayAfter == old(displayAfter)
    {
      busyState := BusyStateName(isBusy);
      visibilityState := VisibilityStateName(isContentVisible);
    }

    /** `OnApplyTemplate`. */
    method ApplyTemplate()
      requires Valid()
      modifies this
      ensures Valid()
      ensures busyState == BusyStateName(isBusy) && visibilityState == VisibilityStateName(isContentVisible)
      ensures isBusy == old(isBusy) && isContentVisible == old(isContentVisible)
      ensures timerRunning == old(timerRunning) && timerInterval == old(timerInterval)
      ensures displayAfter == old(displayAfter)
    {
      ChangeVisualState();
    }

    /** `OnIsBusyChanged`, run after `IsBusy` has changed: busy with no delay shows the content
        at once; busy with a delay starts the timer with that interval; not busy stops the timer
        and hides the content. On entry the flags still describe the old, opposite `IsBusy`.
        `thrown` says that assigning the timer's interval threw `ArgumentOutOfRangeException`
        for a delay above `int.MaxValue` milliseconds; the timer then does not start and the
        visual states are not updated. */
    method OnIsBusyChanged() returns (thrown: bool)
      requires isBusy ==> !isContentVisible && !timerRunning
      requires timerRunning ==> !isContentVisible
      modifies this
      ensures thrown <==> isBusy && displayAfter > MaxTimerInterval
      ensures !thrown ==> Valid()
      ensures isBusy && displayAfter == 0 ==>
        isContentVisible && timerRunning == old(timerRunning) && timerInterval == old(timerInterval)
      ensures isBusy && 0 < displayAfter <= MaxTimerInterval ==>
        timerRunning && timerInterval == displayAfter && isContentVisible == old(isContentVisible)
      ensures !isBusy ==> !timerRunning && !isContentVisible && timerInterval == old(timerInterval)
      ensures !thrown ==> busyState == BusyStateName(isBusy) && visibilityState == VisibilityStateName(isContentVisible)
      ensures thrown ==>
        !timerRunning && !isContentVisible && timerInterval == old(timerInterval)
        && busyState == old(busyState) && visibilityState == old(visibilityState)
      ensures isBusy == old(isBusy) && displayAfter == old(displayAfter)
    {
      thrown := false;
      if isBusy {
        if displayAfter == 0 {
          isContentVisible := true;
        } else {
          if displayAfter > MaxTimerInterval {
            return true;
          }
          timerInterval := displayAfter;
          timerRunning := true;
        }
      } else {
        timerRunning := false;
        isContentVisible := false;
      }
      ChangeVisualState();
    }

    /** Setting `IsBusy`: the changed-callback runs only when the value changes. The value is
        stored even when the callback throws. */
    method SetIsBusy(v: bool) returns (thrown: bool)
      requires Valid()
      modifies this
      ensures thrown <==> v && !old(isBusy) && displayAfter > MaxTimerInterval
      ensures !thrown ==> Valid()
      ensures thrown ==>
        !timerRunning && !isContentVisible && timerInterval == old(timerInterval)
        && busyState == old(busyState) && visibilityState == old(visibilityState)
      ensures isBusy == v && displayAfter == old(displayAfter)
      ensures v == old(isBusy) ==>
        isContentVisible == old(isContentVisible) && timerRunning == old(timerRunning)
        && timerInterval == old(timerInterval) && busyState == old(busyState)
        && visibilityState == old(visibilityState)
      ensures v && !old(isBusy) && displayAfter == 0 ==> isContentVisible && !timerRunning
      ensures v && !old(isBusy) && 0 < displayAfter <= MaxTimerInterval ==>
        !isContentVisible && timerRunning && timerInterval == displayAfter
      ensures !v ==> !isContentVisible && !timerRunning
      ensures v != old(isBusy) && !thrown ==>
        busyState == BusyStateName(v) && visibilityState == VisibilityStateName(isContentVisible)
    {
      thrown := false;
      if v != isBusy {
        isBusy := v;
        thrown := OnIsBusyChanged();
      }
    }

    /** Setting `DisplayAfter` only stores it; a running timer keeps its interval. */
    method SetDisplayAfter(t: nat)
      requires Valid()
      modifies this
      ensures Valid()
      ensures displayAfter == t
      ensures isBusy == old(isBusy) && isContentVisible == old(isContentVisible)
      ensures timerRunning == old(timerRunning) && timerInterval == old(timerInterval)
      ensures busyState == old(busyState) && visibilityState == old(visibilityState)
    {
      displayAfter := t;
    }

    /** `DisplayAfterTimerElapsed`: the timer, which ticks only while it runs, stops and the
        content becomes visible. */
    method TimerTick()
      requires Valid() && timerRunning
      modifies this
      ensures Valid()
      ensures !timerRunning && isContentVisible && isBusy
      ensures busyState == StateBusy && visibilityState == StateVisible
      ensures isBusy == old(isBusy) && displayAfter == old(displayAfter) && timerInterval == old(timerInterval)
    {
      timerRunning := false;
      isContentVisible := true;
      ChangeVisualState();
    }
  }
}
