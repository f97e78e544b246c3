/** The frame animation of the extended image control: a timer that, while enabled, moves the
    current frame index on by one and back to the first frame after the last. */
module ImageEx {
  import opened Common

  /** `OnFrameTimerTick`'s new index: `CurrentFrameIndex + 1` in unchecked `int` arithmetic,
      or `FirstFrameIndex` when that is past `LastFrameIndex`. */
  function NextFrame(cur: Int32, first: Int32, last: Int32): (next: Int32)
    ensures next == first || next == Wrap32(cur + 1)
    ensures cur < last ==> next == cur + 1
  {
    var n := Wrap32(cur + 1);
    if n > last then first else n
  }

  /** An index in `[first, last]` stays there, as long as `last + 1` does not overflow. */
  lemma NextFrameInRange(cur: Int32, first: Int32, last: Int32)
    requires first <= cur <= last && last < IntMaxValue
    ensures first <= NextFrame(cur, first, last) <= last
    ensures cur == last ==> NextFrame(cur, first, last) == first
  {
  }

  /** With `LastFrameIndex == int.MaxValue` the increment overflows to `int.MinValue`, which is
      not past the last frame, so the index leaves `[first, last]`. */
  lemma NextFrameOverflows()
    ensures NextFrame(IntMaxValue, 0, IntMaxValue) == IntMinValue
  {
  }

  /** The index is only ever wrapped past the end, never raised to `first`: an index below the
      first frame just counts up. */
  lemma NextFrameBelowFirst(cur: Int32, first: Int32, last: Int32)
    requires cur < first <= last
    ensures NextFrame(cur, first, last) == cur + 1
  {
  }

  /** The index after `n` ticks. */
  function Ticks(n: nat, cur: Int32, first: Int32, last: Int32): Int32
  {
    if n == 0 then cur else NextFrame(Ticks(n - 1, cur, first, last), first, last)
  }

  /** From the first frame the ticks walk through the frames in order... */
  lemma {:induction false} TicksFromFirst(j: nat, first: Int32, last: Int32)
    requires first <= last < IntMaxValue && j <= last - first
    ensures Ticks(j, first, first, last) == first + j
  {
    if j > 0 {
      TicksFromFirst(j - 1, first, last);
    }
  }

  /** ... and are back at the first after one full cycle of `last - first + 1` ticks. */
  lemma FrameCycle(first: Int32, last: Int32)
    requires first <= last < IntMaxValue
    ensures Ticks(last - first + 1, first, first, last) == first
  {
    TicksFromFirst(last - first, first, last);
  }

  class ImageEx {
    var isFrameBased: bool
    var isLoaded: bool
    /** Whether `FrameTimer` is enabled. */
    var timerEnabled: bool
    var firstFrameIndex: Int32
    var lastFrameIndex: Int32
    var currentFrameIndex: Int32

    constructor()
      ensures !isFrameBased && !isLoaded && !timerEnabled
      ensures firstFrameIndex == 0 && lastFrameIndex == 0 && currentFrameIndex == 0
    {
      isFrameBased := false;
      isLoaded := false;
      timerEnabled := false;
      firstFrameIndex := 0;
      lastFrameIndex := 0;
      currentFrameIndex := 0;
    }

    /** `IsFrameBased`: stored; the timer follows it only while the control is loaded. */
    method SetIsFrameBased(v: bool)
      modifies this
      ensures isFrameBased == v
      ensures isLoaded ==> timerEnabled == v
      ensures !isLoaded ==> timerEnabled == old(timerEnabled)
      ensures isLoaded == old(isLoaded) && currentFrameIndex == old(currentFrameIndex)
      ensures firstFrameIndex == old(firstFrameIndex) && lastFrameIndex == old(lastFrameIndex)
    {
      isFrameBased := v;
      if isLoaded {
        timerEnabled := v;
      }
    }

    /** `ImageEx_Loaded`: a frame-based image starts its animation. */
    method Loaded()
      modifies this
      ensures isLoaded
      ensures isFrameBased ==> timerEnabled
      ensures !isFrameBased ==> timerEnabled == old(timerEnabled)
      ensures isFrameBased == old(isFrameBased) && currentFrameIndex == old(currentFrameIndex)
      ensures firstFrameIndex == old(firstFrameIndex) && lastFrameIndex == old(lastFrameIndex)
    {
      isLoaded := true;
      if isFrameBased {
        timerEnabled := true;
      }
    }

    /** `ImageEx_Unloaded`: the animation stops. */
    method Unloaded()
      modifies this
      ensures !isLoaded && !timerEnabled
      ensures isFrameBased == old(isFrameBased) && currentFrameIndex == old(currentFrameIndex)
      ensures firstFrameIndex == old(firstFrameIndex) && lastFrameIndex == old(lastFrameIndex)
    {
      isLoaded := false;
      timerEnabled := false;
    }

    /** `OnFrameTimerTick`, which the timer raises only while enabled. */
    method Tick()
      requires timerEnabled
      modifies this
      ensures currentFrameIndex == NextFrame(old(currentFrameIndex), firstFrameIndex, lastFrameIndex)
      ensures old(firstFrameIndex) <= old(currentFrameIndex) <= old(lastFrameIndex) < IntMaxValue ==>
        firstFrameIndex <= currentFrameIndex <= lastFrameIndex
      ensures isFrameBased == old(isFrameBased) && isLoaded == old(isLoaded) && timerEnabled == old(timerEnabled)
      ensures firstFrameIndex == old(firstFrameIndex) && lastFrameIndex == old(lastFrameIndex)
    {
      if firstFrameIndex <= currentFrameIndex <= lastFrameIndex < IntMaxValue {
        NextFrameInRange(currentFrameIndex, firstFrameIndex, lastFrameIndex);
      }
      currentFrameIndex := NextFrame(currentFrameIndex, firstFrameIndex, lastFrameIndex);
    }
  }
}
