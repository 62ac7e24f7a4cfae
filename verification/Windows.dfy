/** Scheduling windows and their next transition (internal/scheduler/window.go). */
module Windows {
  import opened Common

  /** Half-open; a missing bound is open-ended. */
  datatype Window = Window(startsAt: Option<int>, endsAt: Option<int>) {
    predicate Valid() {
      !(startsAt.Some? && endsAt.Some? && startsAt.value >= endsAt.value)
    }

    predicate Active(at: int) {
      && Valid()
      && !(startsAt.Some? && at < startsAt.value)
      && !(endsAt.Some? && at >= endsAt.value)
    }

    /** The window has a start bound and it has passed. */
    predicate Started(at: int) {
      startsAt.Some? && at >= startsAt.value
    }
  }

  /** Windows that meet share no instant and leave none out. */
  lemma AdjacentWindowsMeet(start: Option<int>, middle: int, end: Option<int>, at: int)
    requires (start.Some? ==> start.value < middle) && (end.Some? ==> middle < end.value)
    ensures Window(start, Some(middle)).Active(at) <==> at < middle && (start.Some? ==> start.value <= at)
    ensures Window(Some(middle), end).Active(at) <==> at >= middle && (end.Some? ==> at < end.value)
    ensures Window(start, end).Active(at) <==>
            (Window(start, Some(middle)).Active(at) <==> !Window(Some(middle), end).Active(at))
  {
  }

  /** An empty or reversed window is never active. */
  lemma ReversedWindowsAreInactive(start: int, end: int, at: int)
    requires end <= start
    ensures !Window(Some(start), Some(end)).Active(at)
  {
  }

  /** The position of the first active window at or after `from`, or the length if there is none. */
  function FirstActive(windows: seq<Window>, at: int, from: nat): (i: nat)
    requires from <= |windows|
    ensures from <= i <= |windows|
    ensures i < |windows| ==> windows[i].Active(at)
    ensures forall k :: from <= k < i ==> !windows[k].Active(at)
    decreases |windows| - from
  {
    if from == |windows| || windows[from].Active(at) then from else FirstActive(windows, at, from + 1)
  }

  method ActiveWindow(windows: seq<Window>, at: int) returns (i: Option<nat>)
    ensures var first := FirstActive(windows, at, 0); i == if first < |windows| then Some(first) else None
  {
    for k := 0 to |windows|
      invariant FirstActive(windows, at, 0) == FirstActive(windows, at, k)
    {
      if windows[k].Active(at) {
        return Some(k);
      }
    }
    return None;
  }

  /** A future bound of window i that the search considers: started windows are skipped whole. */
  predicate BoundOf(w: Window, at: int, b: int) {
    !w.Started(at) && b > at && (w.startsAt == Some(b) || w.endsAt == Some(b))
  }

  ghost predicate Bound(windows: seq<Window>, at: int, b: int) {
    exists i :: 0 <= i < |windows| && BoundOf(windows[i], at, b)
  }

  /** The earliest considered bound, if there is one. */
  ghost predicate Earliest(windows: seq<Window>, at: int, next: Option<int>) {
    match next
    case None => forall b :: !Bound(windows, at, b)
    case Some(n) => Bound(windows, at, n) && forall b :: Bound(windows, at, b) ==> n <= b
  }

  method NextTransition(windows: seq<Window>, at: int) returns (next: Option<int>)
    ensures Earliest(windows, at, next)
  {
    next := None;
    for i := 0 to |windows|
      invariant Earliest(windows[..i], at, next)
    {
      ghost var before := next;
      var w := windows[i];
      if !w.Started(at) {
        next := Consider(w.startsAt, at, next);
        next := Consider(w.endsAt, at, next);
      }
      EarliestOneMore(windows, at, i, before, next);
    }
    assert windows[..|windows|] == windows;
  }

  /** One candidate of the inner loop. */
  method Consider(candidate: Option<int>, at: int, next: Option<int>) returns (r: Option<int>)
    ensures r == Nearer(candidate, at, next)
  {
    r := next;
    if candidate.Some? && candidate.value > at && (next.None? || candidate.value < next.value) {
      r := candidate;
    }
  }

  function Nearer(candidate: Option<int>, at: int, next: Option<int>): Option<int> {
    if candidate.Some? && candidate.value > at && (next.None? || candidate.value < next.value) then candidate else next
  }

  lemma EarliestOneMore(windows: seq<Window>, at: int, i: nat, before: Option<int>, after: Option<int>)
    requires i < |windows| && Earliest(windows[..i], at, before)
    requires after == if windows[i].Started(at) then before
                      else Nearer(windows[i].endsAt, at, Nearer(windows[i].startsAt, at, before))
    ensures Earliest(windows[..i + 1], at, after)
  {
    var front, more := windows[..i], windows[..i + 1];
    forall b ensures Bound(more, at, b) <==> Bound(front, at, b) || BoundOf(windows[i], at, b) {
      if Bound(front, at, b) {
        var k :| 0 <= k < |front| && BoundOf(front[k], at, b);
        assert BoundOf(more[k], at, b);
      }
      if BoundOf(windows[i], at, b) {
        assert BoundOf(more[i], at, b);
      }
      if Bound(more, at, b) {
        var k :| 0 <= k < |more| && BoundOf(more[k], at, b);
        assert k < i ==> BoundOf(front[k], at, b);
      }
    }
  }

  /** The active window does not change before the announced instant, or ever if none was announced. */
  ghost predicate Stable(windows: seq<Window>, at: int, next: Option<int>) {
    forall t :: at <= t && (next.Some? ==> t < next.value) ==> FirstActive(windows, t, 0) == FirstActive(windows, at, 0)
  }

  /** The active window has started and ends before every bound the search considers. */
  ghost predicate EndIsOverlooked(windows: seq<Window>, at: int) {
    var i := FirstActive(windows, at, 0);
    && i < |windows| && windows[i].startsAt.Some? && windows[i].endsAt.Some?
    && (forall b :: Bound(windows, at, b) ==> windows[i].endsAt.value < b)
  }

  lemma InactiveStaysInactive(windows: seq<Window>, at: int, next: Option<int>, t: int, k: nat)
    requires Earliest(windows, at, next) && at <= t && (next.Some? ==> t < next.value)
    requires k < |windows| && !windows[k].Active(at)
    ensures !windows[k].Active(t)
  {
    var w := windows[k];
    if w.startsAt.Some? && at < w.startsAt.value {
      assert BoundOf(w, at, w.startsAt.value);
      assert Bound(windows, at, w.startsAt.value);
    }
  }

  lemma ActiveStaysActive(windows: seq<Window>, at: int, next: Option<int>, t: int)
    requires Earliest(windows, at, next) && at <= t && (next.Some? ==> t < next.value)
    requires FirstActive(windows, at, 0) < |windows| && !EndIsOverlooked(windows, at)
    ensures windows[FirstActive(windows, at, 0)].Active(t)
  {
    var i := FirstActive(windows, at, 0);
    var w := windows[i];
    if w.endsAt.Some? {
      if w.startsAt.None? {
        assert BoundOf(w, at, w.endsAt.value);
        assert Bound(windows, at, w.endsAt.value);
      } else {
        var b :| Bound(windows, at, b) && b <= w.endsAt.value;
      }
    }
  }

  /** The announced transition is right exactly when the end of the active window is not overlooked. */
  lemma TransitionIsRightIffEndConsidered(windows: seq<Window>, at: int, next: Option<int>)
    requires Earliest(windows, at, next)
    ensures Stable(windows, at, next) <==> !EndIsOverlooked(windows, at)
  {
    var i := FirstActive(windows, at, 0);
    if EndIsOverlooked(windows, at) {
      var t := windows[i].endsAt.value;
      assert at <= t && (next.Some? ==> t < next.value);
      assert !windows[i].Active(t);
      assert FirstActive(windows, t, 0) != i;
    } else {
      forall t | at <= t && (next.Some? ==> t < next.value) ensures FirstActive(windows, t, 0) == i {
        forall k: nat | k < i ensures !windows[k].Active(t) {
          InactiveStaysInactive(windows, at, next, t, k);
        }
        if i < |windows| {
          ActiveStaysActive(windows, at, next, t);
        }
      }
    }
  }

  /** In particular it is right when no started window has a future end. */
  lemma NoStartedWindowMeansRight(windows: seq<Window>, at: int, next: Option<int>)
    requires Earliest(windows, at, next)
    requires forall i :: 0 <= i < |windows| ==>
               !(windows[i].Started(at) && windows[i].endsAt.Some? && windows[i].endsAt.value > at)
    ensures Stable(windows, at, next)
  {
    TransitionIsRightIffEndConsidered(windows, at, next);
  }

  /** One window that runs from 0 to 10, asked at 5: no transition is announced, yet it ends at 10. */
  lemma RunningWindowEndsUnannounced()
    ensures var windows := [Window(Some(0), Some(10))];
            Earliest(windows, 5, None) && !Stable(windows, 5, None)
  {
    var windows := [Window(Some(0), Some(10))];
    assert windows[0].Started(5);
    assert FirstActive(windows, 5, 0) == 0;
    TransitionIsRightIffEndConsidered(windows, 5, None);
  }
}
