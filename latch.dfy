/** The click edge detector behind `itemClicked`.

    In the original the latch is a function-local `static bool` initialised
    to false: one flag per method per template instantiation, so every
    horizontal menu of one item type shares one flag, and the vertical menus
    of that type share another. Here it is an explicit object that the menus
    sharing it are given at construction. */
module Latch {

  /** The "was pressed" flag of one `itemClicked` instantiation. */
  class PressLatch {
    var wasPressed: bool

    constructor ()
      ensures !wasPressed
    {
      wasPressed := false;
    }
  }

  /** What one call of `itemClicked` observes: whether the index names an
      item, whether the left button is down, whether the mouse is over the
      named item. */
  datatype ClickCall = ClickCall(inRange: bool, pressed: bool, over: bool)

  /** What one call answers, and the latch it leaves behind. */
  datatype ClickOutcome = ClickOutcome(clicked: bool, latched: bool)

  /** One call of `itemClicked`, branch for branch: an out-of-range index
      returns before the latch is looked at; a press with the latch clear
      fires and sets it when the mouse is over the item; a release clears
      it. */
  function ClickStep(latched: bool, call: ClickCall): (o: ClickOutcome)
    ensures o.clicked <==> call.inRange && call.pressed && call.over && !latched
    ensures o.latched <==> o.clicked || (latched && !ObservesRelease(call))
  {
    if !call.inRange then ClickOutcome(false, latched)
    else if call.pressed then
      if !latched && call.over then ClickOutcome(true, true)
      else ClickOutcome(false, latched)
    else ClickOutcome(false, false)
  }

  /** A call that clears the latch: a valid index with the button up. */
  predicate ObservesRelease(call: ClickCall) {
    call.inRange && !call.pressed
  }

  /** The answers of a run of calls that share one latch, in order. The run
      may interleave calls on any of the menus that share the latch. */
  function Responses(latched: bool, calls: seq<ClickCall>): (r: seq<bool>)
    decreases |calls|
    ensures |r| == |calls|
  {
    if calls == [] then []
    else
      var o := ClickStep(latched, calls[0]);
      [o.clicked] + Responses(o.latched, calls[1..])
  }

  /** The latch a run of calls leaves behind. */
  function LatchAfter(latched: bool, calls: seq<ClickCall>): bool
    decreases |calls|
  {
    if calls == [] then latched
    else LatchAfter(ClickStep(latched, calls[0]).latched, calls[1..])
  }

  /** A latch stays set until a call observes the button released; until
      then no call fires. */
  lemma {:induction false} LatchedNeedsRelease(calls: seq<ClickCall>, j: nat)
    requires j < |calls| && Responses(true, calls)[j]
    ensures exists k :: 0 <= k < j && ObservesRelease(calls[k])
  {
    var o := ClickStep(true, calls[0]);
    assert Responses(true, calls) == [o.clicked] + Responses(o.latched, calls[1..]);
    if ObservesRelease(calls[0]) {
      assert j > 0;
    } else {
      assert j > 0 && o.latched;
      LatchedNeedsRelease(calls[1..], j - 1);
      var k :| 0 <= k < j - 1 && ObservesRelease(calls[1..][k]);
      assert ObservesRelease(calls[k + 1]);
    }
  }

  /** Between any two calls that fire there is a call that observed the
      button released: a held button fires at most once. */
  lemma {:induction false} ReleaseBetweenClicks(latched: bool, calls: seq<ClickCall>, i: nat, j: nat)
    requires i < j < |calls|
    requires Responses(latched, calls)[i] && Responses(latched, calls)[j]
    ensures exists k :: i < k < j && ObservesRelease(calls[k])
    decreases |calls|
  {
    var o := ClickStep(latched, calls[0]);
    assert Responses(latched, calls) == [o.clicked] + Responses(o.latched, calls[1..]);
    if i == 0 {
      assert o.latched;
      LatchedNeedsRelease(calls[1..], j - 1);
      var k :| 0 <= k < j - 1 && ObservesRelease(calls[1..][k]);
      assert ObservesRelease(calls[k + 1]);
    } else {
      ReleaseBetweenClicks(o.latched, calls[1..], i - 1, j - 1);
      var k :| i - 1 < k < j - 1 && ObservesRelease(calls[1..][k]);
      assert ObservesRelease(calls[k + 1]);
    }
  }

  /** With the button held throughout (no call observes a release), at most
      one call fires, and none fires when the latch was already set. */
  lemma HeldFiresAtMostOnce(latched: bool, calls: seq<ClickCall>)
    requires forall k :: 0 <= k < |calls| ==> !ObservesRelease(calls[k])
    ensures forall i, j :: 0 <= i < j < |calls| ==> !(Responses(latched, calls)[i] && Responses(latched, calls)[j])
    ensures latched ==> forall j :: 0 <= j < |calls| ==> !Responses(latched, calls)[j]
  {
    forall i, j | 0 <= i < j < |calls|
      ensures !(Responses(latched, calls)[i] && Responses(latched, calls)[j])
    {
      if Responses(latched, calls)[i] && Responses(latched, calls)[j] {
        ReleaseBetweenClicks(latched, calls, i, j);
      }
    }
    if latched {
      forall j | 0 <= j < |calls|
        ensures !Responses(latched, calls)[j]
      {
        if Responses(latched, calls)[j] {
          LatchedNeedsRelease(calls, j);
        }
      }
    }
  }

  /** Holding the button over a valid item from a clear latch fires on the
      first call and on no later one. */
  lemma HoldingOverFiresOnce(calls: seq<ClickCall>)
    requires |calls| > 0
    requires forall k :: 0 <= k < |calls| ==> calls[k] == ClickCall(true, true, true)
    ensures Responses(false, calls)[0]
    ensures forall k :: 0 < k < |calls| ==> !Responses(false, calls)[k]
    ensures LatchAfter(false, calls)
  {
    assert Responses(false, calls) == [true] + Responses(true, calls[1..]);
    HeldFiresAtMostOnce(true, calls[1..]);
    HeldLatchStays(calls[1..]);
  }

  /** A set latch survives every call that does not observe a release. */
  lemma {:induction false} HeldLatchStays(calls: seq<ClickCall>)
    requires forall k :: 0 <= k < |calls| ==> !ObservesRelease(calls[k])
    ensures LatchAfter(true, calls)
  {
    if calls != [] {
      HeldLatchStays(calls[1..]);
    }
  }

  /** After a call that observes a release, the next press over a valid item
      fires again, whatever the latch was. */
  lemma ReleaseRearms(latched: bool, before: seq<ClickCall>, release: ClickCall)
    requires ObservesRelease(release)
    ensures !LatchAfter(latched, before + [release])
    ensures Responses(LatchAfter(latched, before + [release]), [ClickCall(true, true, true)]) == [true]
  {
    LatchAfterAppend(latched, before, release);
  }

  /** The latch after a run extended by one call is that call's step from
      the latch the run left. */
  lemma {:induction false} LatchAfterAppend(latched: bool, calls: seq<ClickCall>, last: ClickCall)
    ensures LatchAfter(latched, calls + [last]) == ClickStep(LatchAfter(latched, calls), last).latched
    decreases |calls|
  {
    if calls != [] {
      assert (calls + [last])[1..] == calls[1..] + [last];
      LatchAfterAppend(ClickStep(latched, calls[0]).latched, calls[1..], last);
    }
  }
}
