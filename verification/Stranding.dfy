/**
 How a success can leave its versions unpublished. A second scheduler that completes a release before
 the first has walked its version loop leaves a version rolling out, and nothing any client or
 scheduler does later can publish it. A client that resumes a pending release makes one scheduler
 complete it with its versions never started.
 */
module Stranding {
  import opened Common
  import opened ReleaseDomain
  import opened ReleaseRepository
  import opened ConfigRepository
  import opened Protocol
  import opened Scheduling
  import opened Undisturbed
  import opened Witness
  import C = ConfigDomain

  /** The completing turn, run alone, publishes exactly what was rolling out or published already. */
  lemma SuccessPublishesWhatHasBegun(s: Shared, r: Release, rest: seq<Release>, at: int, all: seq<Release>)
    returns (t: Shared)
    requires Numbered(s.store) && r.id in s.repo.releases && s.repo.releases[r.id] == r && Finishes(r)
    ensures Leads(s, Advancing([r] + rest), at, all, Turn(t, Some(Advancing(rest))))
    ensures r.id in t.repo.releases && t.repo.releases[r.id].state == Succeeded
    ensures forall ref :: ref in r.versionRefs && ref in s.store.versions ==>
              ref in t.store.versions
              && (t.store.versions[ref].state == C.Published <==>
                  s.store.versions[ref].state in {C.RollingOut, C.Published})
  {
    t := AdvanceLeads(s, r, rest, at, all);
  }

  // ---------------------------------------------------------------- for ever

  /** The release will never run again. */
  predicate Over(r: Release) {
    r.state in {Succeeded, RolledBack, Cancelled}
  }

  /** Neither published nor in a state from which a release may carry the version. */
  predicate Withheld(state: C.VersionState) {
    state in {C.RollingOut, C.Paused, C.RolledBack, C.Expired}
  }

  /** The version was left behind: every release that references it is over. */
  ghost predicate Stranded(s: Shared, ref: VersionRef) {
    && ref in s.store.versions && Withheld(s.store.versions[ref].state)
    && (forall id :: id in s.repo.releases && ref in s.repo.releases[id].versionRefs ==> Over(s.repo.releases[id]))
  }

  predicate SparesRefs(to: C.VersionState, refs: seq<VersionRef>, ref: VersionRef) {
    to == C.Published ==> ref !in refs
  }

  predicate SparesNext(vcont: VersionCont, ref: VersionRef) {
    vcont.NextRef? ==> SparesRefs(vcont.to, vcont.refs, ref)
  }

  /** The operation is not about to publish the version, nor to store a release that was found to carry it. */
  predicate Spares(p: Proc, ref: VersionRef) {
    match p
    case CreatingRelease(draft, left) => ref in draft.versionRefs ==> ref in left
    case Rolling(refs, _, to, _, _) => SparesRefs(to, refs, ref)
    case GettingVersion(r, to, _, vcont) => (to == C.Published ==> r != ref) && SparesNext(vcont, ref)
    case PuttingVersion(_, next, vcont) => (next.state == C.Published ==> next.Ref() != ref) && SparesNext(vcont, ref)
    case _ => true
  }

  ghost predicate LeftBehind(w: World, ref: VersionRef) {
    Stranded(w.shared, ref) && forall pid :: pid in w.procs ==> Spares(w.procs[pid], ref)
  }

  ghost predicate StaysStranded(t: Turn, ref: VersionRef) {
    Stranded(t.shared, ref) && (t.next.Some? ==> Spares(t.next.value, ref))
  }

  lemma OverStaysOver(a: Release, b: Release)
    requires Over(a) && Evolves(a, b)
    ensures Over(b) && b.versionRefs == a.versionRefs
  {
  }

  lemma WritingReleaseStrands(s: Shared, read: Release, next: Release, cont: Cont, ref: VersionRef)
    requires Recorded(s) && Succeeds(s.history, read, next) && ContOk(s.history, cont, next.state) && Stranded(s, ref)
    ensures StaysStranded(PutReleaseTurn(s, read, next, cont), ref)
  {
    CurrentRevisionIsCurrentRecord(s, read);
    if s.repo.releases[read.id] == read && ref in read.versionRefs {
      OverStaysOver(read, next);
    }
  }

  lemma CreatingStrands(s: Shared, draft: Release, left: seq<VersionRef>, ref: VersionRef)
    requires Stranded(s, ref) && Spares(CreatingRelease(draft, left), ref)
    ensures StaysStranded(CreateTurn(s, draft, left), ref)
  {
    if left != [] {
      assert left == [left[0]] + left[1..];
    }
  }

  lemma WritingVersionStrands(
    s: Shared, read: C.ConfigVersion, next: C.ConfigVersion, vcont: VersionCont, ref: VersionRef)
    requires Known(s.store.versions, read) && read.Transition(next.state, next.updatedAt) == Ok(next)
    requires Stranded(s, ref) && Spares(PuttingVersion(read, next, vcont), ref)
    ensures StaysStranded(
              Turn(s.(store := ReplaceVersion(s.store, next, read.revision).store), AfterVersion(vcont)), ref)
  {
  }

  lemma RollingStrands(
    s: Shared, refs: seq<VersionRef>, from: C.VersionState, to: C.VersionState, owner: string, todo: seq<Release>,
    ref: VersionRef)
    requires Stranded(s, ref) && SparesRefs(to, refs, ref)
    ensures StaysStranded(RollTurn(s, refs, from, to, owner, todo), ref)
  {
    if refs != [] { SparesTail(to, refs, ref); }
  }

  lemma SparesTail(to: C.VersionState, refs: seq<VersionRef>, ref: VersionRef)
    requires refs != [] && SparesRefs(to, refs, ref)
    ensures SparesRefs(to, refs[1..], ref) && (to == C.Published ==> refs[0] != ref)
  {
    assert refs == [refs[0]] + refs[1..];
  }

  lemma ReadingVersionStrands(
    s: Shared, r: VersionRef, to: C.VersionState, expected: int, vcont: VersionCont, at: int, ref: VersionRef)
    requires Numbered(s.store) && Stranded(s, ref) && Spares(GettingVersion(r, to, expected, vcont), ref)
    ensures StaysStranded(GetVersionTurn(s, r, to, expected, vcont, at), ref)
  {
    if r in s.store.versions {
      assert s.store.versions[r].Ref() == r;
    }
  }

  lemma InsertingStrands(s: Shared, v: C.ConfigVersion, ref: VersionRef)
    requires Stranded(s, ref)
    ensures Stranded(s.(store := InsertVersion(s.store, v).store), ref)
  {
  }

  /** The remaining calls change nothing and go on to calls that spare the version. */
  lemma ReadingStrands(s: Shared, p: Proc, at: int, all: seq<Release>, ref: VersionRef)
    requires Stranded(s, ref)
    requires p.GettingRelease? || p.GettingForRetry? || p.Assessing? || p.Listing? || p.Advancing? || p.Numbering?
             || p.CheckingVersion?
    ensures StaysStranded(Call(s, p, at, all), ref)
  {
  }

  /** No repository call of any operation publishes a stranded version or lets it be referenced anew. */
  lemma CallStrands(s: Shared, p: Proc, at: int, all: seq<Release>, ref: VersionRef)
    requires Recorded(s) && Numbered(s.store) && ProcInv(s, p) && Stranded(s, ref) && Spares(p, ref)
    ensures StaysStranded(Call(s, p, at, all), ref)
  {
    match p
    case PuttingRelease(read, next, cont) => WritingReleaseStrands(s, read, next, cont, ref);
    case CreatingRelease(draft, left) => CreatingStrands(s, draft, left, ref);
    case PuttingVersion(read, next, vcont) => WritingVersionStrands(s, read, next, vcont, ref);
    case Rolling(refs, from, to, owner, todo) => RollingStrands(s, refs, from, to, owner, todo, ref);
    case GettingVersion(r, to, expected, vcont) => ReadingVersionStrands(s, r, to, expected, vcont, at, ref);
    case InsertingVersion(v) => InsertingStrands(s, v, ref);
    case _ => ReadingStrands(s, p, at, all, ref);
  }

  lemma StepStrands(w: World, a: Action, ref: VersionRef)
    requires Recorded(w.shared) && Numbered(w.shared.store) && LeftBehind(w, ref)
    requires a.Resume? && a.pid in w.procs ==> ProcInv(w.shared, w.procs[a.pid])
    ensures LeftBehind(Step(w, a), ref)
  {
    match a
    case CreateConfiguration(c) => ConfigurationStrands(w.shared, c, ref);
    case Spawn(_, p) => EntriesSpare(p, ref);
    case Resume(pid, at, all) =>
      if pid in w.procs { ResumeStrands(w, pid, at, all, ref); }
  }

  lemma ResumeStrands(w: World, pid: nat, at: int, all: seq<Release>, ref: VersionRef)
    requires Recorded(w.shared) && Numbered(w.shared.store) && LeftBehind(w, ref)
    requires pid in w.procs && ProcInv(w.shared, w.procs[pid])
    ensures LeftBehind(Step(w, Resume(pid, at, all)), ref)
  {
    CallStrands(w.shared, w.procs[pid], at, all, ref);
  }

  lemma ConfigurationStrands(s: Shared, c: C.Config, ref: VersionRef)
    requires Stranded(s, ref)
    ensures Stranded(s.(store := CreateConfig(s.store, c).store), ref)
  {
  }

  lemma EntriesSpare(p: Proc, ref: VersionRef)
    ensures Entry(p) ==> Spares(p, ref)
  {
  }

  /** A stranded version is never published, whatever happens afterwards. */
  lemma {:induction false} StrandedForEver(actions: seq<Action>, more: seq<Action>, ref: VersionRef)
    requires LeftBehind(Exec(actions), ref)
    ensures LeftBehind(Exec(actions + more), ref)
    decreases |more|
  {
    if more == [] {
      assert actions + more == actions;
    } else {
      var n := |more| - 1;
      StrandedForEver(actions, more[..n], ref);
      StrandedOnceMore(actions + more[..n], more[n], ref);
      assert actions + more == actions + more[..n] + [more[n]];
    }
  }

  lemma StrandedOnceMore(actions: seq<Action>, a: Action, ref: VersionRef)
    requires LeftBehind(Exec(actions), ref)
    ensures LeftBehind(Exec(actions + [a]), ref)
  {
    Reachable(actions);
    ExecOneMore(actions, a);
    StepStrands(Exec(actions), a, ref);
  }

  // ----------------------------------------------------------- how it happens

  /** The only stored release is about to start in its last wave. */
  ghost predicate OnlyOneStarts(releases: Releases, r: Release) {
    releases == map[r.id := r] && Starts(r) && r.LastWave()
  }

  lemma OneRelease(releases: Releases, r: Release)
    requires releases == map[r.id := r]
    ensures OldestFirst(releases, [r]) && Page([r], 1, 200) == [r]
  {
  }

  /** The first scheduler starts the release and stops before its version loop. */
  lemma FirstStarts(s: Shared, r: Release, at: int) returns (t: Shared)
    requires OnlyOneStarts(s.repo.releases, r)
    ensures Leads(s, Listing, at, [r], Turn(t, Some(Rolling(r.versionRefs, C.Scheduled, C.RollingOut, r.id, []))))
    ensures t.store == s.store && t.repo.releases == map[r.id := Advanced(r, at)]
  {
    OneRelease(s.repo.releases, r);
    t := MoveLeads(s, r, Running, C.Scheduled, C.RollingOut, [], at, [r]);
    var loop := Turn(t, Some(Rolling(r.versionRefs, C.Scheduled, C.RollingOut, r.id, [])));
    assert [r][1..] == [];
    LeadsOn(s, Advancing([r]), at, [r], loop);
    LeadsOn(s, Listing, at, [r], loop);
  }

  /** The second one lists the running release and completes it; scheduled versions stay scheduled. */
  lemma SecondCompletes(s: Shared, r: Release, at: int) returns (t: Shared)
    requires Numbered(s.store) && s.repo.releases == map[r.id := r] && Finishes(r)
    ensures Leads(s, Listing, at, [r], Turn(t, None))
    ensures t.repo.releases == map[r.id := Advanced(r, at)] && Advanced(r, at).state == Succeeded && Numbered(t.store)
    ensures RolledOver(s.store.versions, t.store.versions, r.versionRefs, C.RollingOut, C.Published, at)
  {
    OneRelease(s.repo.releases, r);
    t := AdvanceLeads(s, r, [], at, [r]);
    assert [r] + [] == [r];
    LeadsOn(t, Advancing([]), at, [r], Turn(t, None));
    LeadsThrough(s, Advancing([r]), at, [r], Turn(t, Some(Advancing([]))), Turn(t, None));
    LeadsOn(s, Listing, at, [r], Turn(t, None));
  }

  /** A version loop, run alone to the end of the pass. */
  lemma LoopLeads(
    s: Shared, refs: seq<VersionRef>, from: C.VersionState, to: C.VersionState, owner: string, at: int)
    returns (t: Shared)
    requires Numbered(s.store) && PassMove(from, to)
    ensures Leads(s, Rolling(refs, from, to, owner, []), at, [], Turn(t, None))
    ensures t.repo == s.repo && Numbered(t.store)
    ensures RolledOver(s.store.versions, t.store.versions, refs, from, to, at)
  {
    t := RollLeads(s, refs, from, to, owner, [], at, []);
    LeadsOn(t, Advancing([]), at, [], Turn(t, None));
    LeadsThrough(s, Rolling(refs, from, to, owner, []), at, [], Turn(t, Some(Advancing([]))), Turn(t, None));
  }

  /**
   The run: in every reachable world with one release, about to start in its last wave, and nobody in
   flight, two schedulers can overlap so that the release has succeeded, everybody is done, and every
   version it references that was scheduled is rolling out.
   */
  lemma OverlapStrands(actions: seq<Action>, r: Release, at: int) returns (more: seq<Action>)
    requires Exec(actions).procs == map[] && OnlyOneStarts(Exec(actions).shared.repo.releases, r)
    ensures Exec(actions + more).procs == map[]
    ensures Exec(actions + more).shared.repo.releases == map[r.id := Advanced(Advanced(r, at), at)]
    ensures Advanced(Advanced(r, at), at).state == Succeeded
    ensures forall ref :: ref in r.versionRefs && ref in Exec(actions).shared.store.versions
                          && Exec(actions).shared.store.versions[ref].state == C.Scheduled ==>
                            LeftBehind(Exec(actions + more), ref)
                            && Exec(actions + more).shared.store.versions[ref].state == C.RollingOut
  {
    var w := Exec(actions);
    ReachableIsKeyed(actions);
    var loop := Rolling(r.versionRefs, C.Scheduled, C.RollingOut, r.id, []);
    var t1 := FirstStarts(w.shared, r, at);
    var t2 := SecondCompletes(t1, Advanced(r, at), at);
    var t3 := LoopLeads(t2, r.versionRefs, C.Scheduled, C.RollingOut, r.id, at);
    more := OverlapRuns(actions, r, at, t1, t2, t3, loop);
    OverlapRolls(w.shared.store.versions, t2.store.versions, t3.store.versions, r.versionRefs, at);
  }

  lemma OverlapRuns(
    actions: seq<Action>, r: Release, at: int, t1: Shared, t2: Shared, t3: Shared, loop: Proc)
    returns (more: seq<Action>)
    requires Exec(actions).procs == map[]
    requires Leads(Exec(actions).shared, Listing, at, [r], Turn(t1, Some(loop)))
    requires Leads(t1, Listing, at, [Advanced(r, at)], Turn(t2, None))
    requires Leads(t2, loop, at, [], Turn(t3, None))
    ensures Exec(actions + more) == World(t3, map[])
  {
    var a1 := BeginAt(actions, World(Exec(actions).shared, map[]), 0, at, [r], Turn(t1, Some(loop)));
    var a2 := BeginAt(a1, World(t1, map[0 := loop]), 1, at, [Advanced(r, at)], Turn(t2, None));
    var a3 := LeaveAt(a2, World(t2, map[0 := loop]), 0, at, t3);
    assert (map[0 := loop] - {0}).Keys == {};
    more := a3[|actions|..];
    assert actions + more == a3;
  }

  /** A scheduler that sets out in the given world. */
  lemma BeginAt(actions: seq<Action>, w: World, pid: nat, at: int, all: seq<Release>, t: Turn)
    returns (after: seq<Action>)
    requires Exec(actions) == w && pid !in w.procs && Leads(w.shared, Listing, at, all, t)
    ensures actions <= after
    ensures Exec(after) == World(t.shared, if t.next.Some? then w.procs[pid := t.next.value] else w.procs)
  {
    var more := Begin(actions, pid, Listing, at, all, t);
    after := actions + more;
    assert w.procs - {pid} == w.procs;
  }

  /** One of the operations in flight comes to its end. */
  lemma LeaveAt(actions: seq<Action>, w: World, pid: nat, at: int, t: Shared) returns (after: seq<Action>)
    requires Exec(actions) == w && pid in w.procs && Leads(w.shared, w.procs[pid], at, [], Turn(t, None))
    ensures actions <= after && Exec(after) == World(t, w.procs - {pid})
  {
    var more := Continue(actions, pid, at, [], Turn(t, None));
    after := actions + more;
  }

  lemma OverlapRolls(before: Versions, mid: Versions, after: Versions, refs: seq<VersionRef>, at: int)
    requires RolledOver(before, mid, refs, C.RollingOut, C.Published, at)
    requires RolledOver(mid, after, refs, C.Scheduled, C.RollingOut, at)
    ensures forall ref :: ref in refs && ref in before && before[ref].state == C.Scheduled ==>
              ref in after && after[ref].state == C.RollingOut
  {
  }

  /** The second scheduler, up to its own version loop. */
  lemma SecondSucceeds(s: Shared, r: Release, at: int) returns (t: Shared)
    requires s.repo.releases == map[r.id := r] && Finishes(r)
    ensures Leads(s, Listing, at, [r], Turn(t, Some(Rolling(r.versionRefs, C.RollingOut, C.Published, r.id, []))))
    ensures t.store == s.store && t.repo.releases == map[r.id := Advanced(r, at)]
  {
    OneRelease(s.repo.releases, r);
    t := MoveLeads(s, r, Succeeded, C.RollingOut, C.Published, [], at, [r]);
    var loop := Turn(t, Some(Rolling(r.versionRefs, C.RollingOut, C.Published, r.id, [])));
    assert [r][1..] == [];
    LeadsOn(s, Advancing([r]), at, [r], loop);
    LeadsOn(s, Listing, at, [r], loop);
  }

  /**
   The same overlap with the two loops the other way round publishes: whether a version that is
   scheduled when the release completes gets published is decided by the interleaving alone.
   */
  lemma OverlapCanPublish(actions: seq<Action>, r: Release, at: int) returns (more: seq<Action>)
    requires Exec(actions).procs == map[] && OnlyOneStarts(Exec(actions).shared.repo.releases, r)
    ensures Exec(actions + more).procs == map[]
    ensures Exec(actions + more).shared.repo.releases == map[r.id := Advanced(Advanced(r, at), at)]
    ensures Advanced(Advanced(r, at), at).state == Succeeded
    ensures forall ref :: ref in r.versionRefs && ref in Exec(actions).shared.store.versions
                          && Exec(actions).shared.store.versions[ref].state == C.Scheduled ==>
                            ref in Exec(actions + more).shared.store.versions
                            && Exec(actions + more).shared.store.versions[ref].state == C.Published
  {
    var s := Exec(actions).shared;
    ReachableIsKeyed(actions);
    var first := Rolling(r.versionRefs, C.Scheduled, C.RollingOut, r.id, []);
    var second := Rolling(r.versionRefs, C.RollingOut, C.Published, r.id, []);
    var t1 := FirstStarts(s, r, at);
    var t2 := SecondSucceeds(t1, Advanced(r, at), at);
    var t3 := LoopLeads(t2, r.versionRefs, C.Scheduled, C.RollingOut, r.id, at);
    var t4 := LoopLeads(t3, r.versionRefs, C.RollingOut, C.Published, r.id, at);
    more := CrossingRuns(actions, r, at, t1, t2, t3, t4, first, second);
    RollsInOrder(s.store.versions, t3.store.versions, t4.store.versions, r.versionRefs, at);
  }

  lemma CrossingRuns(
    actions: seq<Action>, r: Release, at: int, t1: Shared, t2: Shared, t3: Shared, t4: Shared,
    first: Proc, second: Proc)
    returns (more: seq<Action>)
    requires Exec(actions).procs == map[]
    requires Leads(Exec(actions).shared, Listing, at, [r], Turn(t1, Some(first)))
    requires Leads(t1, Listing, at, [Advanced(r, at)], Turn(t2, Some(second)))
    requires Leads(t2, first, at, [], Turn(t3, None)) && Leads(t3, second, at, [], Turn(t4, None))
    ensures Exec(actions + more) == World(t4, map[])
  {
    var a2 := BothSetOut(actions, Exec(actions).shared, r, at, t1, t2, first, second);
    var a3 := LeaveAt(a2, World(t2, map[0 := first, 1 := second]), 0, at, t3);
    assert map[0 := first, 1 := second] - {0} == map[1 := second];
    var a4 := LeaveAt(a3, World(t3, map[1 := second]), 1, at, t4);
    more := a4[|actions|..];
    assert actions + more == a4;
  }

  lemma BothSetOut(
    actions: seq<Action>, s: Shared, r: Release, at: int, t1: Shared, t2: Shared, first: Proc, second: Proc)
    returns (after: seq<Action>)
    requires Exec(actions) == World(s, map[]) && Leads(s, Listing, at, [r], Turn(t1, Some(first)))
    requires Leads(t1, Listing, at, [Advanced(r, at)], Turn(t2, Some(second)))
    ensures actions <= after && Exec(after) == World(t2, map[0 := first, 1 := second])
  {
    after := BeginAt(actions, World(s, map[]), 0, at, [r], Turn(t1, Some(first)));
    after := BeginAt(after, World(t1, map[0 := first]), 1, at, [Advanced(r, at)], Turn(t2, Some(second)));
  }

  lemma RollsInOrder(before: Versions, mid: Versions, after: Versions, refs: seq<VersionRef>, at: int)
    requires RolledOver(before, mid, refs, C.Scheduled, C.RollingOut, at)
    requires RolledOver(mid, after, refs, C.RollingOut, C.Published, at)
    ensures forall ref :: ref in refs && ref in before && before[ref].state == C.Scheduled ==>
              ref in after && after[ref].state == C.Published
  {
  }

  /** The lost publication: the release has succeeded, and the version it carried is published at no later time. */
  lemma OverlapLosesThePublication(actions: seq<Action>, r: Release, ref: VersionRef, at: int)
    returns (more: seq<Action>)
    requires Exec(actions).procs == map[] && OnlyOneStarts(Exec(actions).shared.repo.releases, r)
    requires ref in r.versionRefs && ref in Exec(actions).shared.store.versions
    requires Exec(actions).shared.store.versions[ref].state == C.Scheduled
    ensures r.id in Exec(actions + more).shared.repo.releases
    ensures Exec(actions + more).shared.repo.releases[r.id].state == Succeeded
    ensures forall later :: LeftBehind(Exec(actions + more + later), ref)
  {
    more := OverlapStrands(actions, r, at);
    forall later ensures LeftBehind(Exec(actions + more + later), ref) {
      StrandedForEver(actions + more, later, ref);
    }
  }

  // ------------------------------------------------- one scheduler is enough

  /** A client resumes the pending release; its versions are not touched. */
  lemma ResumeLeads(s: Shared, r: Release, at: int) returns (t: Shared)
    requires s.repo.releases == map[r.id := r] && r.state == Pending
    ensures Leads(s, GettingRelease(r.id, Running, "", r.fencingToken + 1, Return), at, [], Turn(t, None))
    ensures t.store == s.store && t.repo.releases == map[r.id := Advanced(r, at)]
  {
    t := TransitionLeads(s, r.id, Running, "", r.fencingToken + 1, at, []);
    CarriedIsAdvanced(r, t.repo.releases[r.id], Running, at);
  }

  /**
   With a single scheduler: in every reachable world with one pending release in its last wave and
   nobody in flight, a client's `resume` and then one pass bring it to success while every version that
   is scheduled stays scheduled.
   */
  lemma ResumeSkipsTheRollout(actions: seq<Action>, r: Release, at: int) returns (more: seq<Action>)
    requires Exec(actions).procs == map[] && OnlyOneStarts(Exec(actions).shared.repo.releases, r) && r.state == Pending
    ensures Exec(actions + more).procs == map[]
    ensures Exec(actions + more).shared.repo.releases == map[r.id := Advanced(Advanced(r, at), at)]
    ensures Advanced(Advanced(r, at), at).state == Succeeded
    ensures forall ref :: ref in Exec(actions).shared.store.versions
                          && Exec(actions).shared.store.versions[ref].state == C.Scheduled ==>
                            ref in Exec(actions + more).shared.store.versions
                            && Exec(actions + more).shared.store.versions[ref]
                               == Exec(actions).shared.store.versions[ref]
  {
    var s := Exec(actions).shared;
    ReachableIsKeyed(actions);
    var t1 := ResumeLeads(s, r, at);
    var t2 := SecondCompletes(t1, Advanced(r, at), at);
    var a1 := RunQuietly(actions, s, GettingRelease(r.id, Running, "", r.fencingToken + 1, Return), at, t1);
    var a2 := BeginAt(a1, World(t1, map[]), 1, at, [Advanced(r, at)], Turn(t2, None));
    more := a2[|actions|..];
    assert actions + more == a2;
  }

  // --------------------------------------------------- from the empty store

  /** The run from the empty store: a succeeded release of one wave whose version is published at no later time. */
  lemma PublicationCanBeLost(c: C.Config, v: C.ConfigVersion, r: Release, at: int) returns (actions: seq<Action>)
    requires Plain(c, v, r) && r.LastWave()
    ensures r.id in Exec(actions).shared.repo.releases && Exec(actions).shared.repo.releases[r.id].state == Succeeded
    ensures forall later :: LeftBehind(Exec(actions + later), VersionRef(c.id, 1))
  {
    var before := OneReleaseIsReachable(c, v, r, at);
    var more := OverlapLosesThePublication(before, r, VersionRef(c.id, 1), at);
    actions := before + more;
  }
}
