/**
 The webhook dispatcher under arbitrary interleaving of producers, `Close`, workers and the reader of
 the results (internal/notify/dispatcher.go). One delivery, with its retries, is a single step whose
 outcome is left open.
 */
module Dispatcher {
  import opened Common

  const CAPACITY := 64

  datatype Event = Event(subscription: string, id: string)

  datatype Worker =
    | Waiting
    | Delivering(event: Event)
    | Reporting(event: Event)
    | Exited

  /**
   `sender` is the producer that holds the mutex and is blocked on the queue. `accepted`, `taken` and
   `drained` record what was enqueued, received by workers and read from the results, in order.
   */
  datatype Dispatch = Dispatch(
    queue: seq<Event>, results: seq<Event>, sender: Option<Event>, done: bool, closed: bool,
    cancelled: bool, panicked: bool, workers: seq<Worker>,
    accepted: seq<Event>, taken: seq<Event>, drained: seq<Event>)

  datatype Action =
    | StartSend(event: Event)
    | Send
    | MarkDone
    | CloseQueue
    | Cancel
    | Drain
    | Take(worker: nat)
    | Deliver(worker: nat)
    | Report(worker: nat)
    | Exit(worker: nat)

  function Started(workers: nat): Dispatch {
    Dispatch([], [], None, false, false, false, false, seq(workers, _ => Waiting), [], [], [])
  }

  predicate IsWaiting(s: Dispatch, i: nat) {
    i < |s.workers| && s.workers[i] == Waiting
  }

  /** The action can happen: locks are free, channels have room or content. */
  predicate Enabled(s: Dispatch, a: Action) {
    match a
    case StartSend(_) => s.sender.None? && !s.done
    case Send => s.sender.Some? && (s.closed || |s.queue| < CAPACITY)
    case MarkDone => s.sender.None? && !s.done
    case CloseQueue => s.done && !s.closed
    case Cancel => !s.cancelled
    case Drain => s.results != []
    case Take(i) => IsWaiting(s, i) && s.queue != []
    case Deliver(i) => i < |s.workers| && s.workers[i].Delivering?
    case Report(i) => i < |s.workers| && s.workers[i].Reporting? && |s.results| < CAPACITY
    case Exit(i) => IsWaiting(s, i) && (s.cancelled || (s.closed && s.queue == []))
  }

  function Step(s: Dispatch, a: Action): Dispatch {
    if !Enabled(s, a) then s
    else
      match a
      case StartSend(e) => s.(sender := Some(e))
      case Send =>
        if s.closed then s.(panicked := true)
        else s.(queue := s.queue + [s.sender.value], accepted := s.accepted + [s.sender.value], sender := None)
      case MarkDone => s.(done := true)
      case CloseQueue => s.(closed := true)
      case Cancel => s.(cancelled := true)
      case Drain => s.(results := s.results[1..], drained := s.drained + [s.results[0]])
      case Take(i) =>
        s.(queue := s.queue[1..], taken := s.taken + [s.queue[0]], workers := s.workers[i := Delivering(s.queue[0])])
      case Deliver(i) => s.(workers := s.workers[i := Reporting(s.workers[i].event)])
      case Report(i) => s.(results := s.results + [s.workers[i].event], workers := s.workers[i := Waiting])
      case Exit(i) => s.(workers := s.workers[i := Exited])
  }

  function Exec(s: Dispatch, actions: seq<Action>): Dispatch {
    if actions == [] then s else Step(Exec(s, actions[..|actions| - 1]), actions[|actions| - 1])
  }

  // ----------------------------------------------------------- conservation

  function HeldBy(w: Worker, e: Event): nat {
    if (w.Delivering? || w.Reporting?) && w.event == e then 1 else 0
  }

  /** How many workers hold the event. */
  function Held(workers: seq<Worker>, e: Event): nat {
    if workers == [] then 0 else Held(workers[..|workers| - 1], e) + HeldBy(workers[|workers| - 1], e)
  }

  lemma {:induction false} HeldAfter(workers: seq<Worker>, i: nat, w: Worker, e: Event)
    requires i < |workers|
    ensures Held(workers[i := w], e) == Held(workers, e) - HeldBy(workers[i], e) + HeldBy(w, e)
  {
    var n := |workers| - 1;
    if i < n {
      HeldAfter(workers[..n], i, w, e);
      assert workers[i := w][..n] == workers[..n][i := w];
    } else {
      assert workers[i := w][..n] == workers[..n];
    }
  }

  lemma {:induction false} NothingHeldBy(workers: seq<Worker>, e: Event)
    requires forall i :: 0 <= i < |workers| ==> workers[i] == Waiting || workers[i] == Exited
    ensures Held(workers, e) == 0
  {
    if workers != [] { NothingHeldBy(workers[..|workers| - 1], e); }
  }

  /** The copies of an event that are queued, held by a worker, reported or read. */
  function Copies(s: Dispatch, e: Event): nat {
    multiset(s.queue)[e] + Held(s.workers, e) + multiset(s.results)[e] + multiset(s.drained)[e]
  }

  /** Nothing accepted is lost or doubled. */
  ghost predicate Conserved(s: Dispatch) {
    forall e :: multiset(s.accepted)[e] == Copies(s, e)
  }

  /** No panic, `Close` excludes senders, bounded channels, first-in first-out, and no early exit. */
  ghost predicate Safe(s: Dispatch) {
    && !s.panicked
    && (s.done ==> s.sender.None?)
    && (s.closed ==> s.done)
    && |s.queue| <= CAPACITY && |s.results| <= CAPACITY
    && s.accepted == s.taken + s.queue
    && (forall i :: 0 <= i < |s.workers| && s.workers[i] == Exited && !s.cancelled ==> s.closed && s.queue == [])
  }

  ghost predicate Inv(s: Dispatch) {
    Safe(s) && Conserved(s)
  }

  lemma HeadAndTail(q: seq<Event>, e: Event)
    requires q != []
    ensures multiset(q)[e] == multiset(q[1..])[e] + if q[0] == e then 1 else 0
  {
    assert q == [q[0]] + q[1..];
  }

  lemma TakeConservesOne(s: Dispatch, i: nat, e: Event)
    requires multiset(s.accepted)[e] == Copies(s, e) && Enabled(s, Take(i))
    ensures multiset(Step(s, Take(i)).accepted)[e] == Copies(Step(s, Take(i)), e)
  {
    HeadAndTail(s.queue, e);
    HeldAfter(s.workers, i, Delivering(s.queue[0]), e);
  }

  lemma ReportConservesOne(s: Dispatch, i: nat, e: Event)
    requires multiset(s.accepted)[e] == Copies(s, e) && Enabled(s, Report(i))
    ensures multiset(Step(s, Report(i)).accepted)[e] == Copies(Step(s, Report(i)), e)
  {
    HeldAfter(s.workers, i, Waiting, e);
  }

  lemma WorkerConservesOne(s: Dispatch, a: Action, e: Event)
    requires multiset(s.accepted)[e] == Copies(s, e)
    requires (a.Take? || a.Deliver? || a.Report? || a.Exit?) && Enabled(s, a)
    ensures multiset(Step(s, a).accepted)[e] == Copies(Step(s, a), e)
  {
    match a
    case Take(i) => TakeConservesOne(s, i, e);
    case Report(i) => ReportConservesOne(s, i, e);
    case Deliver(i) => HeldAfter(s.workers, i, Reporting(s.workers[i].event), e);
    case Exit(i) => HeldAfter(s.workers, i, Exited, e);
  }

  lemma StepConservesOne(s: Dispatch, a: Action, e: Event)
    requires multiset(s.accepted)[e] == Copies(s, e)
    ensures multiset(Step(s, a).accepted)[e] == Copies(Step(s, a), e)
  {
    if Enabled(s, a) {
      if a.Take? || a.Deliver? || a.Report? || a.Exit? {
        WorkerConservesOne(s, a, e);
      } else if a.Drain? {
        HeadAndTail(s.results, e);
      }
    }
  }

  lemma StepConserves(s: Dispatch, a: Action)
    requires Conserved(s)
    ensures Conserved(Step(s, a))
  {
    forall e ensures multiset(Step(s, a).accepted)[e] == Copies(Step(s, a), e) {
      StepConservesOne(s, a, e);
    }
  }

  lemma StepIsSafe(s: Dispatch, a: Action)
    requires Safe(s)
    ensures Safe(Step(s, a)) && |Step(s, a).workers| == |s.workers|
    ensures a != Cancel ==> Step(s, a).cancelled == s.cancelled
    ensures s.closed ==> Step(s, a).closed && Step(s, a).accepted == s.accepted
  {
  }

  lemma StepKeeps(s: Dispatch, a: Action)
    requires Inv(s)
    ensures Inv(Step(s, a)) && |Step(s, a).workers| == |s.workers|
    ensures a != Cancel ==> Step(s, a).cancelled == s.cancelled
    ensures s.closed ==> Step(s, a).closed && Step(s, a).accepted == s.accepted
  {
    StepConserves(s, a);
    StepIsSafe(s, a);
  }

  /** In every run no send hits a closed queue, workers receive in order of acceptance, and events are conserved. */
  lemma {:induction false} EveryRunIsSafe(workers: nat, actions: seq<Action>)
    ensures Inv(Exec(Started(workers), actions))
    ensures |Exec(Started(workers), actions).workers| == workers
    ensures Cancel !in actions ==> !Exec(Started(workers), actions).cancelled
  {
    if actions == [] {
      forall e ensures Held(Started(workers).workers, e) == 0 {
        NothingHeldBy(Started(workers).workers, e);
      }
    } else {
      var front, last := actions[..|actions| - 1], actions[|actions| - 1];
      EveryRunIsSafe(workers, front);
      StepKeeps(Exec(Started(workers), front), last);
      assert last in actions;
    }
  }

  // ---------------------------------------------------------------- shutdown

  function Weight(w: Worker): nat {
    match w
    case Waiting => 1
    case Delivering(_) => 4
    case Reporting(_) => 3
    case Exited => 0
  }

  function Work(workers: seq<Worker>): nat {
    if workers == [] then 0 else Work(workers[..|workers| - 1]) + Weight(workers[|workers| - 1])
  }

  /** An upper bound on the steps still possible once the queue is closed. */
  function Remaining(s: Dispatch): nat {
    4 * |s.queue| + Work(s.workers) + |s.results|
  }

  lemma {:induction false} WorkAfter(workers: seq<Worker>, i: nat, w: Worker)
    requires i < |workers|
    ensures Work(workers[i := w]) == Work(workers) - Weight(workers[i]) + Weight(w)
  {
    var n := |workers| - 1;
    if i < n {
      WorkAfter(workers[..n], i, w);
      assert workers[i := w][..n] == workers[..n][i := w];
    } else {
      assert workers[i := w][..n] == workers[..n];
    }
  }

  /** After `Close`, every step that happens uses up work. */
  lemma ClosedStepsUseUpWork(s: Dispatch, a: Action)
    requires Inv(s) && s.closed && Enabled(s, a) && a != Cancel
    ensures Remaining(Step(s, a)) < Remaining(s)
  {
    match a
    case Take(i) => WorkAfter(s.workers, i, Delivering(s.queue[0]));
    case Deliver(i) => WorkAfter(s.workers, i, Reporting(s.workers[i].event));
    case Report(i) => WorkAfter(s.workers, i, Waiting);
    case Exit(i) => WorkAfter(s.workers, i, Exited);
    case _ =>
  }

  /** Each action of the list happens. */
  ghost predicate AllHappen(s: Dispatch, actions: seq<Action>) {
    forall k :: 0 <= k < |actions| ==> Enabled(Exec(s, actions[..k]), actions[k]) && actions[k] != Cancel
  }

  /** After `Close` the system stops: no run makes more steps than the work that was left. */
  lemma {:induction false} ShutdownTerminates(s: Dispatch, actions: seq<Action>)
    requires Inv(s) && s.closed && AllHappen(s, actions)
    ensures Inv(Exec(s, actions)) && Exec(s, actions).closed && Exec(s, actions).accepted == s.accepted
    ensures |Exec(s, actions).workers| == |s.workers| && Exec(s, actions).cancelled == s.cancelled
    ensures |actions| + Remaining(Exec(s, actions)) <= Remaining(s)
  {
    if actions != [] {
      var n := |actions| - 1;
      var front := actions[..n];
      forall k | 0 <= k < n ensures Enabled(Exec(s, front[..k]), front[k]) && front[k] != Cancel {
        assert front[..k] == actions[..k];
      }
      ShutdownTerminates(s, front);
      assert actions[..n] == front && Enabled(Exec(s, actions[..n]), actions[n]);
      ClosedStepsUseUpWork(Exec(s, front), actions[n]);
      StepKeeps(Exec(s, front), actions[n]);
    }
  }

  /** No worker can move. */
  ghost predicate Quiet(s: Dispatch) {
    forall i: nat :: i < |s.workers| ==>
      !Enabled(s, Take(i)) && !Enabled(s, Deliver(i)) && !Enabled(s, Report(i)) && !Enabled(s, Exit(i))
  }

  /** Every worker has left and every accepted event has exactly one result. */
  ghost predicate Complete(s: Dispatch) {
    && (forall i :: 0 <= i < |s.workers| ==> s.workers[i] == Exited)
    && s.queue == []
    && (forall e :: multiset(s.accepted)[e] == multiset(s.results)[e] + multiset(s.drained)[e])
  }

  /** At rest after `Close` a worker has left, or waits for room to report. */
  lemma RestingWorker(s: Dispatch, i: nat)
    requires Inv(s) && s.closed && !s.cancelled && i < |s.workers| && Quiet(s)
    ensures s.workers[i] == Exited || (s.workers[i].Reporting? && |s.results| == CAPACITY)
  {
    assert !Enabled(s, Deliver(i)) && !Enabled(s, Report(i)) && !Enabled(s, Take(i)) && !Enabled(s, Exit(i));
  }

  lemma ExitedIsComplete(s: Dispatch)
    requires Inv(s) && !s.cancelled && |s.workers| >= 1
    requires forall i :: 0 <= i < |s.workers| ==> s.workers[i] == Exited
    ensures Complete(s)
  {
    assert s.workers[0] == Exited;
    forall e ensures multiset(s.accepted)[e] == multiset(s.results)[e] + multiset(s.drained)[e] {
      NothingHeldBy(s.workers, e);
      assert multiset(s.accepted)[e] == Copies(s, e);
    }
  }

  /** Complete means as many results as accepted events. */
  lemma CompleteCounts(s: Dispatch)
    requires Complete(s)
    ensures |s.accepted| == |s.results| + |s.drained|
  {
    assert multiset(s.accepted) == multiset(s.results) + multiset(s.drained);
    assert |multiset(s.accepted)| == |multiset(s.results)| + |multiset(s.drained)|;
  }

  /** A held event is accepted and has no result yet. */
  lemma HeldMeansMoreAccepted(s: Dispatch, i: nat)
    requires Conserved(s) && i < |s.workers| && s.workers[i].Reporting?
    ensures |s.accepted| > |s.results| + |s.drained|
  {
    var e := s.workers[i].event;
    HeldAfter(s.workers, i, Waiting, e);
    forall x ensures multiset(s.results)[x] + multiset(s.drained)[x] <= multiset(s.accepted)[x] {
      assert multiset(s.accepted)[x] == Copies(s, x);
    }
    assert multiset(s.accepted)[e] == Copies(s, e);
    var told := multiset(s.results) + multiset(s.drained);
    var extra := multiset(s.accepted) - told;
    assert e in extra && multiset(s.accepted) == told + extra;
    assert |multiset(s.accepted)| == |told| + |extra|;
  }

  /**
   A closed, uncancelled dispatcher that came to rest is complete exactly when at most 64 accepted
   events have a result that was not read.
   */
  lemma RestIsCompleteIffFewUnread(s: Dispatch)
    requires Inv(s) && s.closed && !s.cancelled && |s.workers| >= 1 && Quiet(s)
    ensures Complete(s) <==> |s.accepted| <= |s.drained| + CAPACITY
  {
    if i :| 0 <= i < |s.workers| && s.workers[i] != Exited {
      RestingWorker(s, i);
      HeldMeansMoreAccepted(s, i);
    } else {
      ExitedIsComplete(s);
      CompleteCounts(s);
    }
  }

  /**
   From any reachable closed state of an uncancelled run with at least one worker: once it comes to
   rest, it is complete exactly when no more than 64 of the accepted events are unread.
   */
  lemma ShutdownIsComplete(workers: nat, before: seq<Action>, after: seq<Action>)
    requires workers >= 1 && Cancel !in before
    requires Exec(Started(workers), before).closed && AllHappen(Exec(Started(workers), before), after)
    requires Quiet(Exec(Exec(Started(workers), before), after))
    ensures var s := Exec(Exec(Started(workers), before), after);
            Complete(s) <==> |s.accepted| <= |s.drained| + 64
  {
    EveryRunIsSafe(workers, before);
    ShutdownTerminates(Exec(Started(workers), before), after);
    RestIsCompleteIffFewUnread(Exec(Exec(Started(workers), before), after));
  }

  // ------------------------------------------- unread results do block

  function Repeat(e: Event, k: nat): seq<Event> {
    seq(k, _ => e)
  }

  /** k events enqueued, delivered and reported by one worker, none read. */
  function Filled(e: Event, k: nat): Dispatch {
    Dispatch([], Repeat(e, k), None, false, false, false, false, [Waiting], Repeat(e, k), Repeat(e, k), [])
  }

  lemma Unfold(s: Dispatch, actions: seq<Action>, a: Action)
    ensures Exec(s, actions + [a]) == Step(Exec(s, actions), a)
  {
    assert (actions + [a])[..|actions|] == actions;
  }

  /** As `Filled`, with one more event delivered and not yet reported. */
  function Pending(e: Event, k: nat): Dispatch {
    Filled(e, k).(workers := [Reporting(e)], accepted := Repeat(e, k + 1), taken := Repeat(e, k + 1))
  }

  lemma OneMore(e: Event, k: nat, actions: seq<Action>)
    requires Exec(Started(1), actions) == Filled(e, k)
    ensures Exec(Started(1), actions + [StartSend(e)] + [Send] + [Take(0)] + [Deliver(0)]) == Pending(e, k)
  {
    var a1 := actions + [StartSend(e)];
    var a2 := a1 + [Send];
    var a3 := a2 + [Take(0)];
    Unfold(Started(1), actions, StartSend(e));
    Unfold(Started(1), a1, Send);
    Unfold(Started(1), a2, Take(0));
    Unfold(Started(1), a3, Deliver(0));
    assert Repeat(e, k) + [e] == Repeat(e, k + 1);
    assert [] + [e] == [e] && [e][1..] == [];
  }

  lemma {:induction false} FillResults(e: Event, k: nat) returns (actions: seq<Action>)
    requires k <= CAPACITY
    ensures Exec(Started(1), actions) == Filled(e, k) && Cancel !in actions
  {
    if k == 0 {
      actions := [];
      assert seq(1, _ => Waiting) == [Waiting];
    } else {
      var front := FillResults(e, k - 1);
      OneMore(e, k - 1, front);
      var more := front + [StartSend(e)] + [Send] + [Take(0)] + [Deliver(0)];
      actions := more + [Report(0)];
      Unfold(Started(1), more, Report(0));
      assert Repeat(e, k - 1) + [e] == Repeat(e, k);
    }
  }

  /** The result of closing with full, unread results and a delivery to report. */
  lemma BlockedIsQuiet(e: Event)
    ensures var s := Pending(e, CAPACITY).(done := true, closed := true);
            Quiet(s) && !Complete(s) && |s.accepted| == CAPACITY + 1
  {
    assert Pending(e, CAPACITY).workers[0] == Reporting(e);
  }

  /** The bound of 64 is sharp: with 65 events and unread results, `Close` leaves a worker blocked for ever. */
  lemma UnreadResultsBlockShutdown(e: Event) returns (actions: seq<Action>)
    ensures var s := Exec(Started(1), actions);
            s.closed && !s.cancelled && |s.accepted| == 65 && Quiet(s) && !Complete(s)
  {
    var full := FillResults(e, CAPACITY);
    OneMore(e, CAPACITY, full);
    var more := full + [StartSend(e)] + [Send] + [Take(0)] + [Deliver(0)];
    actions := more + [MarkDone] + [CloseQueue];
    Unfold(Started(1), more, MarkDone);
    Unfold(Started(1), more + [MarkDone], CloseQueue);
    BlockedIsQuiet(e);
  }

  // ------------------------------------------------- when `Close` gets through

  /** A sender holds the mutex before a full queue, and every worker is busy before full results. */
  ghost predicate Jammed(s: Dispatch) {
    && s.sender.Some? && |s.queue| == CAPACITY && |s.results| == CAPACITY
    && (forall i :: 0 <= i < |s.workers| ==> s.workers[i].Delivering? || s.workers[i].Reporting?)
  }

  /** Nothing is read from the results and nothing is cancelled. */
  predicate Unread(actions: seq<Action>) {
    forall k :: 0 <= k < |actions| ==> actions[k] != Drain && actions[k] != Cancel
  }

  lemma JammedStep(s: Dispatch, a: Action)
    requires Jammed(s) && !s.done && !s.closed && a != Drain && a != Cancel
    ensures Jammed(Step(s, a)) && !Step(s, a).done && !Step(s, a).closed
  {
  }

  /** While nobody reads the results, a jam lasts and `Close` waits for the mutex. */
  lemma {:induction false} JamLasts(s: Dispatch, more: seq<Action>)
    requires Jammed(s) && !s.done && !s.closed && Unread(more)
    ensures Jammed(Exec(s, more)) && !Exec(s, more).done && !Exec(s, more).closed
  {
    if more != [] {
      var n := |more| - 1;
      JamLasts(s, more[..n]);
      assert more[n] != Drain && more[n] != Cancel;
      JammedStep(Exec(s, more[..n]), more[n]);
    }
  }

  /** A sender that finds room lets `Close` through. */
  lemma RoomLetsCloseThrough(s: Dispatch, before: seq<Action>) returns (more: seq<Action>)
    requires Unread(before)
    requires var t := Exec(s, before); !t.done && !t.closed && t.sender.Some? && |t.queue| < CAPACITY
    ensures Unread(more) && Exec(s, more).done
  {
    more := before + [Send] + [MarkDone];
    Unfold(s, before, Send);
    Unfold(s, before + [Send], MarkDone);
  }

  /** A waiting worker makes room. */
  lemma WaitingLetsCloseThrough(s: Dispatch, before: seq<Action>, i: nat) returns (more: seq<Action>)
    requires Unread(before)
    requires var t := Exec(s, before);
             !t.done && !t.closed && t.sender.Some? && |t.queue| == CAPACITY && IsWaiting(t, i)
    ensures Unread(more) && Exec(s, more).done
  {
    Unfold(s, before, Take(i));
    more := RoomLetsCloseThrough(s, before + [Take(i)]);
  }

  /** With room for its result a reporting worker goes back to waiting. */
  lemma ReportingLetsCloseThrough(s: Dispatch, before: seq<Action>, i: nat) returns (more: seq<Action>)
    requires Unread(before)
    requires var t := Exec(s, before);
             && !t.done && !t.closed && t.sender.Some? && |t.queue| == CAPACITY && |t.results| < CAPACITY
             && i < |t.workers| && t.workers[i].Reporting?
    ensures Unread(more) && Exec(s, more).done
  {
    Unfold(s, before, Report(i));
    more := WaitingLetsCloseThrough(s, before + [Report(i)], i);
  }

  lemma UnjammedLetsCloseThrough(s: Dispatch) returns (more: seq<Action>)
    requires Inv(s) && !s.done && !s.cancelled && |s.workers| >= 1 && !Jammed(s)
    ensures Unread(more) && Exec(s, more).done
  {
    assert Exec(s, []) == s;
    if s.sender.None? {
      more := [] + [MarkDone];
      Unfold(s, [], MarkDone);
    } else if |s.queue| < CAPACITY {
      more := RoomLetsCloseThrough(s, []);
    } else if i: nat :| i < |s.workers| && s.workers[i] == Waiting {
      more := WaitingLetsCloseThrough(s, [], i);
    } else if s.workers[0].Reporting? {
      assert s.workers[0] != Exited;
      more := ReportingLetsCloseThrough(s, [], 0);
    } else {
      assert s.workers[0] != Waiting && s.workers[0] != Exited;
      Unfold(s, [], Deliver(0));
      more := ReportingLetsCloseThrough(s, [] + [Deliver(0)], 0);
    }
  }

  /**
   In every uncancelled run with at least one worker: as long as nobody reads the results, `Close` can
   still get the mutex exactly when there is no jam.
   */
  lemma CloseGetsThroughIff(workers: nat, before: seq<Action>)
    requires workers >= 1 && Cancel !in before && !Exec(Started(workers), before).done
    ensures var s := Exec(Started(workers), before);
            (exists more :: Unread(more) && Exec(s, more).done) <==> !Jammed(s)
  {
    var s := Exec(Started(workers), before);
    EveryRunIsSafe(workers, before);
    if Jammed(s) {
      forall more | Unread(more) ensures !Exec(s, more).done {
        JamLasts(s, more);
      }
    } else {
      var more := UnjammedLetsCloseThrough(s);
    }
  }

  /** Reading one result ends a jam. */
  lemma ReadingEndsTheJam(s: Dispatch)
    requires Jammed(s)
    ensures Enabled(s, Drain) && !Jammed(Step(s, Drain))
  {
  }

  /** As `Pending` with full results, and k more events waiting in the queue. */
  function Backlog(e: Event, k: nat): Dispatch {
    Pending(e, CAPACITY).(queue := Repeat(e, k), accepted := Repeat(e, CAPACITY + 1 + k))
  }

  lemma {:induction false} FillQueue(e: Event, k: nat) returns (actions: seq<Action>)
    requires k <= CAPACITY
    ensures Exec(Started(1), actions) == Backlog(e, k) && Cancel !in actions
  {
    if k == 0 {
      var full := FillResults(e, CAPACITY);
      OneMore(e, CAPACITY, full);
      actions := full + [StartSend(e)] + [Send] + [Take(0)] + [Deliver(0)];
    } else {
      var front := FillQueue(e, k - 1);
      actions := front + [StartSend(e)] + [Send];
      Unfold(Started(1), front, StartSend(e));
      Unfold(Started(1), front + [StartSend(e)], Send);
      assert Repeat(e, k - 1) + [e] == Repeat(e, k);
      assert Repeat(e, CAPACITY + k) + [e] == Repeat(e, CAPACITY + 1 + k);
    }
  }

  /** Jams are reachable: 130 events to one worker, none read. */
  lemma JamIsReachable(e: Event) returns (actions: seq<Action>)
    ensures Cancel !in actions && Jammed(Exec(Started(1), actions)) && !Exec(Started(1), actions).done
  {
    var full := FillQueue(e, CAPACITY);
    actions := full + [StartSend(e)];
    Unfold(Started(1), full, StartSend(e));
  }

  // ------------------------------------------------------------- cancellation

  /** A send on a closed queue would panic; `EveryRunIsSafe` says that none happens. */
  lemma SendOnClosedPanics(s: Dispatch)
    requires s.sender.Some? && s.closed
    ensures Enabled(s, Send) && Step(s, Send).panicked
  {
  }

  /** A cancelled dispatcher at rest, closed or not: a worker has left or waits for room to report. */
  lemma CancelledWorkerAtRest(s: Dispatch, i: nat)
    requires Inv(s) && s.cancelled && Quiet(s) && i < |s.workers|
    ensures s.workers[i] == Exited || (s.workers[i].Reporting? && |s.results| == CAPACITY)
  {
    assert !Enabled(s, Deliver(i)) && !Enabled(s, Report(i)) && !Enabled(s, Exit(i));
  }

  ghost predicate AllExited(s: Dispatch) {
    forall i :: 0 <= i < |s.workers| ==> s.workers[i] == Exited
  }

  /** What workers have received is held, reported or read. */
  lemma TakenIsAccounted(s: Dispatch, e: Event)
    requires Inv(s)
    ensures multiset(s.taken)[e] == Held(s.workers, e) + multiset(s.results)[e] + multiset(s.drained)[e]
  {
    assert multiset(s.accepted) == multiset(s.taken) + multiset(s.queue);
    assert multiset(s.accepted)[e] == Copies(s, e);
  }

  lemma HeldMeansMoreTaken(s: Dispatch, i: nat)
    requires Inv(s) && i < |s.workers| && s.workers[i].Reporting?
    ensures |s.taken| > |s.results| + |s.drained|
  {
    var e := s.workers[i].event;
    HeldAfter(s.workers, i, Waiting, e);
    forall x ensures multiset(s.results)[x] + multiset(s.drained)[x] <= multiset(s.taken)[x] {
      TakenIsAccounted(s, x);
    }
    TakenIsAccounted(s, e);
    var told := multiset(s.results) + multiset(s.drained);
    var extra := multiset(s.taken) - told;
    assert e in extra && multiset(s.taken) == told + extra;
    assert |multiset(s.taken)| == |told| + |extra|;
  }

  lemma ExitedMeansAllTold(s: Dispatch)
    requires Inv(s) && AllExited(s)
    ensures multiset(s.taken) == multiset(s.results) + multiset(s.drained)
    ensures |s.taken| == |s.results| + |s.drained|
  {
    forall e ensures multiset(s.taken)[e] == (multiset(s.results) + multiset(s.drained))[e] {
      TakenIsAccounted(s, e);
      NothingHeldBy(s.workers, e);
    }
    var told := multiset(s.results) + multiset(s.drained);
    assert multiset(s.taken) == told;
    assert |multiset(s.taken)| == |told|;
  }

  /**
   Every cancelled run that comes to rest, closed or not: the events left in the queue are exactly the
   accepted ones no worker received, and they are the last ones; all workers have left exactly when at
   most 64 of the received events are unread, and then each received event has one result.
   */
  lemma CancelledRest(workers: nat, actions: seq<Action>)
    requires Exec(Started(workers), actions).cancelled && Quiet(Exec(Started(workers), actions))
    ensures var s := Exec(Started(workers), actions);
            && s.accepted == s.taken + s.queue
            && (AllExited(s) <==> |s.taken| <= |s.drained| + 64)
            && (AllExited(s) ==> multiset(s.taken) == multiset(s.results) + multiset(s.drained))
  {
    var s := Exec(Started(workers), actions);
    EveryRunIsSafe(workers, actions);
    if i :| 0 <= i < |s.workers| && s.workers[i] != Exited {
      CancelledWorkerAtRest(s, i);
      HeldMeansMoreTaken(s, i);
    } else {
      ExitedMeansAllTold(s);
    }
  }

  /** What can still happen once producers have stopped: work, and the two steps of `Close`. */
  function Pace(s: Dispatch): nat {
    Remaining(s) + (if s.done then 0 else 1) + (if s.closed then 0 else 1)
  }

  predicate Producing(a: Action) {
    a.StartSend? || a.Send?
  }

  lemma IdleStepsUseUpWork(s: Dispatch, a: Action)
    requires Inv(s) && s.cancelled && Enabled(s, a) && !Producing(a)
    ensures Pace(Step(s, a)) < Pace(s) && Step(s, a).cancelled
  {
    match a
    case Take(i) => WorkAfter(s.workers, i, Delivering(s.queue[0]));
    case Deliver(i) => WorkAfter(s.workers, i, Reporting(s.workers[i].event));
    case Report(i) => WorkAfter(s.workers, i, Waiting);
    case Exit(i) => WorkAfter(s.workers, i, Exited);
    case _ =>
  }

  ghost predicate HappenAt(s: Dispatch, actions: seq<Action>, k: int) {
    0 <= k < |actions| ==> Enabled(Exec(s, actions[..k]), actions[k]) && !Producing(actions[k])
  }

  /** After cancellation, once producers have stopped, no run makes more steps than the work that was left. */
  lemma {:induction false} CancellationTerminates(s: Dispatch, actions: seq<Action>)
    requires Inv(s) && s.cancelled && forall k :: 0 <= k < |actions| ==> HappenAt(s, actions, k)
    ensures Inv(Exec(s, actions)) && Exec(s, actions).cancelled
    ensures |actions| + Pace(Exec(s, actions)) <= Pace(s)
  {
    if actions != [] {
      var n := |actions| - 1;
      var front := actions[..n];
      forall k | 0 <= k < n ensures HappenAt(s, front, k) {
        assert HappenAt(s, actions, k) && front[..k] == actions[..k];
      }
      CancellationTerminates(s, front);
      assert HappenAt(s, actions, n);
      IdleStepsUseUpWork(Exec(s, front), actions[n]);
      StepKeeps(Exec(s, front), actions[n]);
    }
  }

  /** Cancelling lets every waiting worker leave at once, without `Close`. */
  lemma CancelReleasesWaiters(s: Dispatch, i: nat)
    requires IsWaiting(s, i) && !s.cancelled
    ensures Enabled(s, Cancel) && Enabled(Step(s, Cancel), Exit(i))
    ensures Step(Step(s, Cancel), Exit(i)).workers == s.workers[i := Exited]
  {
  }

  /** An accepted event can be left in the queue for ever by a cancellation. */
  lemma CancellationCanLeaveEvents(e: Event) returns (actions: seq<Action>)
    ensures var s := Exec(Started(1), actions);
            && Quiet(s) && s.cancelled && AllExited(s)
            && s.accepted == [e] && s.queue == [e] && s.results == [] && s.drained == []
  {
    var a1 := [] + [StartSend(e)];
    var a2 := a1 + [Send];
    var a3 := a2 + [Cancel];
    actions := a3 + [Exit(0)];
    Unfold(Started(1), [], StartSend(e));
    Unfold(Started(1), a1, Send);
    Unfold(Started(1), a2, Cancel);
    Unfold(Started(1), a3, Exit(0));
    assert Exec(Started(1), []) == Started(1);
    assert Exec(Started(1), actions).workers == [Exited];
  }
}
