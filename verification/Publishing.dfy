/**
 What the completing scheduler publishes, whoever interrupts it. Clients are those of the HTTP
 handlers, which move versions only to review and to the schedule; any number of schedulers run beside
 them.
 */
module Publishing {
  import opened Common
  import opened ReleaseDomain
  import opened ConfigRepository
  import opened Protocol
  import C = ConfigDomain

  /** The handler that approves a version asks for no other state. */
  predicate FromHandler(a: Action) {
    a.Spawn? && a.proc.GettingVersion? ==> a.proc.vto in {C.Reviewing, C.Scheduled}
  }

  ghost predicate HandlersOnly(actions: seq<Action>) {
    forall i :: 0 <= i < |actions| ==> FromHandler(actions[i])
  }

  /** What handlers and schedulers ask for between them. */
  predicate Asked(to: C.VersionState) {
    to in {C.Reviewing, C.Scheduled, C.RollingOut, C.Published}
  }

  predicate AsksNext(vcont: VersionCont) {
    vcont.NextRef? ==> Asked(vcont.to)
  }

  predicate AsksThen(cont: Cont) {
    cont.RollVersions? ==> Asked(cont.to)
  }

  /** The operation asks for nothing else, now or later. */
  predicate Mild(p: Proc) {
    match p
    case GettingRelease(_, _, _, _, cont) => AsksThen(cont)
    case PuttingRelease(_, _, cont) => AsksThen(cont)
    case Rolling(_, _, to, _, _) => Asked(to)
    case GettingVersion(_, to, _, vcont) => Asked(to) && AsksNext(vcont)
    case PuttingVersion(_, next, vcont) => Asked(next.state) && AsksNext(vcont)
    case _ => true
  }

  ghost predicate AllMild(w: World) {
    forall pid :: pid in w.procs ==> Mild(w.procs[pid])
  }

  lemma CallStaysMild(s: Shared, p: Proc, at: int, all: seq<Release>)
    requires Mild(p)
    ensures Call(s, p, at, all).next.Some? ==> Mild(Call(s, p, at, all).next.value)
  {
  }

  lemma {:induction false} HandlersAreMild(actions: seq<Action>)
    requires HandlersOnly(actions)
    ensures AllMild(Exec(actions))
  {
    if actions != [] {
      var n := |actions| - 1;
      HandlersAreMild(actions[..n]);
      assert FromHandler(actions[n]);
      StepStaysMild(Exec(actions[..n]), actions[n]);
    }
  }

  lemma StepStaysMild(w: World, a: Action)
    requires AllMild(w) && FromHandler(a)
    ensures AllMild(Step(w, a))
  {
    if a.Resume? && a.pid in w.procs {
      CallStaysMild(w.shared, w.procs[a.pid], a.at, a.all);
    }
  }

  // -------------------------------------------------- one version under way

  /** The version is rolling out or published. */
  ghost predicate UnderWay(s: Shared, ref: VersionRef) {
    ref in s.store.versions && s.store.versions[ref].state in {C.RollingOut, C.Published}
  }

  /** It is as it was, or has been published. */
  ghost predicate KeptOrPublished(s: Shared, t: Shared, ref: VersionRef) {
    && ref in s.store.versions && ref in t.store.versions
    && (t.store.versions[ref] == s.store.versions[ref] || t.store.versions[ref].state == C.Published)
  }

  lemma WritePublishesOrKeeps(s: Shared, read: C.ConfigVersion, next: C.ConfigVersion, ref: VersionRef)
    requires UnderWay(s, ref) && Known(s.store.versions, read) && Asked(next.state)
    requires read.Transition(next.state, next.updatedAt) == Ok(next)
    ensures KeptOrPublished(s, s.(store := ReplaceVersion(s.store, next, read.revision).store), ref)
  {
  }

  /** No call takes a version under way anywhere but to `Published`. */
  lemma CallPublishesOrKeeps(s: Shared, p: Proc, at: int, all: seq<Release>, ref: VersionRef)
    requires UnderWay(s, ref) && ProcInv(s, p) && Mild(p)
    ensures KeptOrPublished(s, Call(s, p, at, all).shared, ref)
  {
    match p
    case PuttingVersion(read, next, _) => WritePublishesOrKeeps(s, read, next, ref);
    case InsertingVersion(_) =>
    case PuttingRelease(_, _, _) =>
    case CreatingRelease(_, _) =>
    case _ => assert Call(s, p, at, all).shared == s;
  }

  // ------------------------------------------------------ the completing loop

  predicate LeftToPublish(from: C.VersionState, to: C.VersionState, refs: seq<VersionRef>, ref: VersionRef) {
    from == C.RollingOut && to == C.Published && ref in refs
  }

  predicate NextToPublish(vcont: VersionCont, ref: VersionRef) {
    vcont.NextRef? && LeftToPublish(vcont.from, vcont.to, vcont.refs, ref)
  }

  /** The operation is still going to publish the version, which is now v. */
  predicate WillPublish(p: Proc, ref: VersionRef, v: C.ConfigVersion) {
    match p
    case Rolling(refs, from, to, _, _) => LeftToPublish(from, to, refs, ref)
    case GettingVersion(r, to, expected, vcont) =>
      (vcont.NextRef? && r == ref && to == C.Published && expected == v.revision) || NextToPublish(vcont, ref)
    case PuttingVersion(read, next, vcont) =>
      (vcont.NextRef? && read == v && next.state == C.Published) || NextToPublish(vcont, ref)
    case _ => false
  }

  /** The version is published, or rolling out with the operation still going to publish it. */
  ghost predicate Settling(w: World, pid: nat, ref: VersionRef) {
    && UnderWay(w.shared, ref)
    && (w.shared.store.versions[ref].state == C.Published
        || (pid in w.procs && WillPublish(w.procs[pid], ref, w.shared.store.versions[ref])))
  }

  ghost predicate TurnSettles(s: Shared, t: Turn, ref: VersionRef) {
    && KeptOrPublished(s, t.shared, ref)
    && (t.shared.store.versions[ref].state == C.Published
        || (t.next.Some? && WillPublish(t.next.value, ref, t.shared.store.versions[ref])))
  }

  lemma RollSettles(
    s: Shared, refs: seq<VersionRef>, from: C.VersionState, to: C.VersionState, owner: string, todo: seq<Release>,
    ref: VersionRef)
    requires UnderWay(s, ref) && s.store.versions[ref].state == C.RollingOut && LeftToPublish(from, to, refs, ref)
    ensures TurnSettles(s, RollTurn(s, refs, from, to, owner, todo), ref)
  {
    assert refs == [refs[0]] + refs[1..];
  }

  lemma GetSettles(
    s: Shared, r: VersionRef, to: C.VersionState, expected: int, vcont: VersionCont, at: int, ref: VersionRef)
    requires UnderWay(s, ref) && s.store.versions[ref].state == C.RollingOut
    requires WillPublish(GettingVersion(r, to, expected, vcont), ref, s.store.versions[ref])
    ensures TurnSettles(s, GetVersionTurn(s, r, to, expected, vcont, at), ref)
  {
  }

  lemma PutSettles(s: Shared, read: C.ConfigVersion, next: C.ConfigVersion, vcont: VersionCont, ref: VersionRef)
    requires Numbered(s.store) && UnderWay(s, ref) && s.store.versions[ref].state == C.RollingOut
    requires Known(s.store.versions, read) && read.Transition(next.state, next.updatedAt) == Ok(next)
    requires Asked(next.state) && WillPublish(PuttingVersion(read, next, vcont), ref, s.store.versions[ref])
    ensures TurnSettles(
              s, Turn(s.(store := ReplaceVersion(s.store, next, read.revision).store), AfterVersion(vcont)), ref)
  {
    WritePublishesOrKeeps(s, read, next, ref);
  }

  /** Each call of the completing loop publishes the version or comes closer to it. */
  lemma CallSettles(s: Shared, p: Proc, at: int, all: seq<Release>, ref: VersionRef)
    requires Numbered(s.store) && ProcInv(s, p) && Mild(p) && UnderWay(s, ref)
    requires s.store.versions[ref].state == C.RollingOut && WillPublish(p, ref, s.store.versions[ref])
    ensures TurnSettles(s, Call(s, p, at, all), ref)
  {
    match p
    case Rolling(refs, from, to, owner, todo) => RollSettles(s, refs, from, to, owner, todo, ref);
    case GettingVersion(r, to, expected, vcont) => GetSettles(s, r, to, expected, vcont, at, ref);
    case PuttingVersion(read, next, vcont) => PutSettles(s, read, next, vcont, ref);
  }

  lemma OwnTurnSettles(w: World, pid: nat, at: int, all: seq<Release>, ref: VersionRef)
    requires Numbered(w.shared.store) && Settling(w, pid, ref) && pid in w.procs
    requires ProcInv(w.shared, w.procs[pid]) && Mild(w.procs[pid])
    ensures Settling(Step(w, Resume(pid, at, all)), pid, ref)
  {
    CallPublishesOrKeeps(w.shared, w.procs[pid], at, all, ref);
    if w.shared.store.versions[ref].state == C.RollingOut {
      CallSettles(w.shared, w.procs[pid], at, all, ref);
    }
  }

  lemma OtherTurnSettles(w: World, pid: nat, other: nat, at: int, all: seq<Release>, ref: VersionRef)
    requires Settling(w, pid, ref) && other != pid && other in w.procs
    requires ProcInv(w.shared, w.procs[other]) && Mild(w.procs[other])
    ensures Settling(Step(w, Resume(other, at, all)), pid, ref)
  {
    CallPublishesOrKeeps(w.shared, w.procs[other], at, all, ref);
  }

  /** New configurations, new operations and operations that do not exist touch no version. */
  lemma IdleStepSettles(w: World, a: Action, pid: nat, ref: VersionRef)
    requires Settling(w, pid, ref) && (a.Resume? ==> a.pid !in w.procs)
    ensures Settling(Step(w, a), pid, ref)
  {
  }

  lemma StepSettles(w: World, a: Action, pid: nat, ref: VersionRef)
    requires Numbered(w.shared.store) && AllMild(w) && Settling(w, pid, ref)
    requires a.Resume? && a.pid in w.procs ==> ProcInv(w.shared, w.procs[a.pid])
    ensures Settling(Step(w, a), pid, ref)
  {
    if !a.Resume? || a.pid !in w.procs {
      IdleStepSettles(w, a, pid, ref);
    } else if a.pid == pid {
      OwnTurnSettles(w, pid, a.at, a.all, ref);
    } else {
      OtherTurnSettles(w, pid, a.pid, a.at, a.all, ref);
    }
  }

  /** Once a version is settling it stays so to the end of the run. */
  lemma {:induction false} SettlingLasts(actions: seq<Action>, n: nat, pid: nat, ref: VersionRef)
    requires HandlersOnly(actions) && n <= |actions| && Settling(Exec(actions[..n]), pid, ref)
    ensures Settling(Exec(actions), pid, ref)
    decreases |actions|
  {
    if n == |actions| {
      assert actions[..n] == actions;
    } else {
      var front := actions[..|actions| - 1];
      assert front[..n] == actions[..n];
      SettlingLasts(front, n, pid, ref);
      Reachable(front);
      HandlersAreMild(front);
      StepSettles(Exec(front), actions[|actions| - 1], pid, ref);
    }
  }

  /** The scheduler has completed a release and stands before the loop over its versions. */
  predicate Completing(w: World, pid: nat, ref: VersionRef) {
    && pid in w.procs && w.procs[pid].Rolling?
    && LeftToPublish(w.procs[pid].from, w.procs[pid].vto, w.procs[pid].refs, ref)
  }

  /** The operation is in the loop over the versions of a release. */
  predicate InLoop(p: Proc) {
    p.Rolling? || ((p.GettingVersion? || p.PuttingVersion?) && p.vcont.NextRef?)
  }

  /**
   However many schedulers and clients interfere: a version that is rolling out, or published, when a
   scheduler enters the loop of a release it has completed is published once it has left that loop, and
   stays published.
   */
  lemma CompletedRolloutIsPublished(actions: seq<Action>, n: nat, pid: nat, ref: VersionRef)
    requires HandlersOnly(actions) && n <= |actions|
    requires Completing(Exec(actions[..n]), pid, ref) && UnderWay(Exec(actions[..n]).shared, ref)
    ensures ref in Exec(actions).shared.store.versions
    ensures pid !in Exec(actions).procs || !InLoop(Exec(actions).procs[pid]) ==>
              Exec(actions).shared.store.versions[ref].state == C.Published
    ensures Exec(actions).shared.store.versions[ref].state in {C.RollingOut, C.Published}
  {
    SettlingLasts(actions, n, pid, ref);
    SettledOutsideLoop(Exec(actions), pid, ref);
  }

  lemma SettledOutsideLoop(w: World, pid: nat, ref: VersionRef)
    requires Settling(w, pid, ref)
    ensures pid !in w.procs || !InLoop(w.procs[pid]) ==> w.shared.store.versions[ref].state == C.Published
  {
  }
}
