/**
 Operations that nobody interrupts. From every reachable world, whatever other operations are in
 flight, the repository calls of one operation made in a row have exactly the effect the operation
 promises; in particular the scheduler's calls add up to one whole pass.
 */
module Undisturbed {
  import opened Common
  import opened ReleaseDomain
  import opened ReleaseRepository
  import opened ConfigRepository
  import opened Drafting
  import opened Protocol
  import opened Scheduling
  import C = ConfigDomain

  /** Up to n calls of one operation in a row. */
  ghost function Solo(s: Shared, p: Proc, at: int, all: seq<Release>, n: nat): Turn
    decreases n, 1
  {
    if n == 0 then Turn(s, Some(p)) else SoloOn(s, p, at, all, n)
  }

  /** One call, then the rest. */
  ghost function SoloOn(s: Shared, p: Proc, at: int, all: seq<Release>, n: nat): Turn
    requires n > 0
    decreases n, 0
  {
    var t := Call(s, p, at, all);
    if t.next.None? then t else Solo(t.shared, t.next.value, at, all, n - 1)
  }

  /** The operation, run alone, gets to t. */
  ghost predicate Leads(s: Shared, p: Proc, at: int, all: seq<Release>, t: Turn) {
    exists n: nat :: Solo(s, p, at, all, n) == t
  }

  lemma LeadsOn(s: Shared, p: Proc, at: int, all: seq<Release>, t: Turn)
    requires var c := Call(s, p, at, all);
             if c.next.Some? then Leads(c.shared, c.next.value, at, all, t) else t == c
    ensures Leads(s, p, at, all, t)
  {
    var c := Call(s, p, at, all);
    if c.next.Some? {
      var n: nat :| Solo(c.shared, c.next.value, at, all, n) == t;
      assert Solo(s, p, at, all, n + 1) == t;
    } else {
      assert Solo(s, p, at, all, 1) == t;
    }
  }

  lemma LeadsTo(s: Shared, p: Proc, at: int, all: seq<Release>)
    ensures Leads(s, p, at, all, Turn(s, Some(p)))
  {
    assert Solo(s, p, at, all, 0) == Turn(s, Some(p));
  }

  lemma {:induction false} SoloJoins(s: Shared, p: Proc, at: int, all: seq<Release>, n: nat, m: nat)
    requires Solo(s, p, at, all, n).next.Some?
    ensures var mid := Solo(s, p, at, all, n);
            Solo(s, p, at, all, n + m) == Solo(mid.shared, mid.next.value, at, all, m)
    decreases n
  {
    if n > 0 {
      var c := Call(s, p, at, all);
      SoloJoins(c.shared, c.next.value, at, all, n - 1, m);
    }
  }

  lemma LeadsThrough(s: Shared, p: Proc, at: int, all: seq<Release>, mid: Turn, t: Turn)
    requires Leads(s, p, at, all, mid) && mid.next.Some? && Leads(mid.shared, mid.next.value, at, all, t)
    ensures Leads(s, p, at, all, t)
  {
    var n: nat :| Solo(s, p, at, all, n) == mid;
    var m: nat :| Solo(mid.shared, mid.next.value, at, all, m) == t;
    SoloJoins(s, p, at, all, n, m);
    assert Solo(s, p, at, all, n + m) == t;
  }

  // ------------------------------------------------------------ the scheduler

  /** The version moves a pass makes. */
  predicate PassMove(from: C.VersionState, to: C.VersionState) {
    (from == C.Scheduled && to == C.RollingOut) || (from == C.RollingOut && to == C.Published)
  }

  function RollHead(versions: Versions, ref: VersionRef, from: C.VersionState, to: C.VersionState, at: int): Versions {
    if ref in versions then versions[ref := Rolled(versions[ref], from, to, at)] else versions
  }

  lemma RollJoins(
    before: Versions, after: Versions, refs: seq<VersionRef>, from: C.VersionState, to: C.VersionState, at: int)
    requires refs != [] && from != to
    requires RolledOver(RollHead(before, refs[0], from, to, at), after, refs[1..], from, to, at)
    ensures RolledOver(before, after, refs, from, to, at)
  {
    assert refs == [refs[0]] + refs[1..];
  }

  /** One turn of the version loop, run alone. */
  lemma RollOneLeads(
    s: Shared, refs: seq<VersionRef>, from: C.VersionState, to: C.VersionState, owner: string, todo: seq<Release>,
    at: int, all: seq<Release>)
    requires Numbered(s.store) && PassMove(from, to) && refs != []
    ensures var t := s.(store := s.store.(versions := RollHead(s.store.versions, refs[0], from, to, at)));
            Leads(s, Rolling(refs, from, to, owner, todo), at, all,
                  Turn(t, Some(Rolling(refs[1..], from, to, owner, todo))))
  {
    var p, q := Rolling(refs, from, to, owner, todo), Rolling(refs[1..], from, to, owner, todo);
    var t := s.(store := s.store.(versions := RollHead(s.store.versions, refs[0], from, to, at)));
    LeadsTo(t, q, at, all);
    if refs[0] in s.store.versions && s.store.versions[refs[0]].state == from {
      var v := s.store.versions[refs[0]];
      var put := PuttingVersion(v, Rolled(v, from, to, at), NextRef(refs[1..], from, to, owner, todo));
      assert Call(s, put, at, all) == Turn(t, Some(q));
      LeadsOn(s, put, at, all, Turn(t, Some(q)));
      LeadsOn(s, GettingVersion(refs[0], to, v.revision, put.vcont), at, all, Turn(t, Some(q)));
    } else {
      assert RollHead(s.store.versions, refs[0], from, to, at) == s.store.versions;
    }
    LeadsOn(s, p, at, all, Turn(t, Some(q)));
  }

  /** The whole version loop, run alone. */
  lemma {:induction false} RollLeads(
    s: Shared, refs: seq<VersionRef>, from: C.VersionState, to: C.VersionState, owner: string, todo: seq<Release>,
    at: int, all: seq<Release>) returns (t: Shared)
    requires Numbered(s.store) && PassMove(from, to)
    ensures Leads(s, Rolling(refs, from, to, owner, todo), at, all, Turn(t, Some(Advancing(todo))))
    ensures t.repo == s.repo && Numbered(t.store)
    ensures RolledOver(s.store.versions, t.store.versions, refs, from, to, at)
    decreases |refs|
  {
    var p := Rolling(refs, from, to, owner, todo);
    if refs == [] {
      t := s;
      LeadsTo(s, Advancing(todo), at, all);
      LeadsOn(s, p, at, all, Turn(s, Some(Advancing(todo))));
    } else {
      var mid := s.(store := s.store.(versions := RollHead(s.store.versions, refs[0], from, to, at)));
      RollOneLeads(s, refs, from, to, owner, todo, at, all);
      t := RollLeads(mid, refs[1..], from, to, owner, todo, at, all);
      LeadsThrough(s, p, at, all, Turn(mid, Some(Rolling(refs[1..], from, to, owner, todo))),
                   Turn(t, Some(Advancing(todo))));
      RollJoins(s.store.versions, t.store.versions, refs, from, to, at);
    }
  }

  /** The transition of a listed release, run alone up to its version loop. */
  lemma MoveLeads(
    s: Shared, r: Release, to: State, from: C.VersionState, vto: C.VersionState, rest: seq<Release>,
    at: int, all: seq<Release>) returns (t: Shared)
    requires r.id in s.repo.releases && s.repo.releases[r.id] == r
    requires (Starts(r) && to == Running) || (Finishes(r) && to == Succeeded)
    ensures Leads(s, GettingRelease(r.id, to, "", r.fencingToken + 1, RollVersions(from, vto, rest)), at, all,
                  Turn(t, Some(Rolling(r.versionRefs, from, vto, r.id, rest))))
    ensures t.store == s.store && t.repo.releases == s.repo.releases[r.id := Advanced(r, at)]
  {
    var cont := RollVersions(from, vto, rest);
    var put := PuttingRelease(r, Advanced(r, at), cont);
    t := Call(s, put, at, all).shared;
    var roll := Rolling(r.versionRefs, from, vto, r.id, rest);
    LeadsTo(t, roll, at, all);
    assert Call(s, put, at, all) == Turn(t, Some(roll));
    LeadsOn(s, put, at, all, Turn(t, Some(roll)));
    var get := GettingRelease(r.id, to, "", r.fencingToken + 1, cont);
    assert Call(s, get, at, all) == Turn(s, Some(put));
    LeadsOn(s, get, at, all, Turn(t, Some(roll)));
  }

  /** What one turn of the pass leaves behind for a release. */
  ghost predicate TurnedOver(s: Shared, t: Shared, r: Release, at: int) {
    && t.repo.releases == s.repo.releases[r.id := Advanced(r, at)]
    && (Starts(r) ==>
          RolledOver(s.store.versions, t.store.versions, r.versionRefs, C.Scheduled, C.RollingOut, at))
    && (Finishes(r) ==>
          RolledOver(s.store.versions, t.store.versions, r.versionRefs, C.RollingOut, C.Published, at))
    && (!Starts(r) && !Finishes(r) ==> t.store.versions == s.store.versions)
  }

  /** The loop body for a listed release whose snapshot is current, run alone. */
  lemma AdvanceLeads(s: Shared, r: Release, rest: seq<Release>, at: int, all: seq<Release>) returns (t: Shared)
    requires Numbered(s.store) && r.id in s.repo.releases && s.repo.releases[r.id] == r
    ensures Leads(s, Advancing([r] + rest), at, all, Turn(t, Some(Advancing(rest))))
    ensures TurnedOver(s, t, r, at) && Numbered(t.store)
  {
    var p, done := Advancing([r] + rest), Advancing(rest);
    assert ([r] + rest)[1..] == rest;
    assert Call(s, p, at, all) == Turn(s, Some(AdvanceOne(r, rest, at)));
    if Starts(r) {
      t := MoveAndRollLeads(s, r, Running, C.Scheduled, C.RollingOut, rest, at, all);
    } else if Finishes(r) {
      t := MoveAndRollLeads(s, r, Succeeded, C.RollingOut, C.Published, rest, at, all);
    } else {
      t := if r.state == Running then Call(s, AdvanceOne(r, rest, at), at, all).shared else s;
      LeadsTo(t, done, at, all);
      if r.state == Running {
        LeadsOn(s, AdvanceOne(r, rest, at), at, all, Turn(t, Some(done)));
      }
    }
    LeadsOn(s, p, at, all, Turn(t, Some(done)));
  }

  lemma MoveAndRollLeads(
    s: Shared, r: Release, to: State, from: C.VersionState, vto: C.VersionState, rest: seq<Release>,
    at: int, all: seq<Release>) returns (t: Shared)
    requires Numbered(s.store) && r.id in s.repo.releases && s.repo.releases[r.id] == r && PassMove(from, vto)
    requires (Starts(r) && to == Running) || (Finishes(r) && to == Succeeded)
    ensures Leads(s, GettingRelease(r.id, to, "", r.fencingToken + 1, RollVersions(from, vto, rest)), at, all,
                  Turn(t, Some(Advancing(rest))))
    ensures t.repo.releases == s.repo.releases[r.id := Advanced(r, at)] && Numbered(t.store)
    ensures RolledOver(s.store.versions, t.store.versions, r.versionRefs, from, vto, at)
  {
    var get := GettingRelease(r.id, to, "", r.fencingToken + 1, RollVersions(from, vto, rest));
    var mid := MoveLeads(s, r, to, from, vto, rest, at, all);
    t := RollLeads(mid, r.versionRefs, from, vto, r.id, rest, at, all);
    LeadsThrough(s, get, at, all, Turn(mid, Some(Rolling(r.versionRefs, from, vto, r.id, rest))),
                 Turn(t, Some(Advancing(rest))));
  }

  function PlaneOf(s: Shared): Plane {
    Plane(s.repo.releases, s.store.versions)
  }

  lemma TurnExtendsTick(start: Plane, s: Shared, t: Shared, r: Release, done: seq<Release>, at: int)
    requires Ticked(start, PlaneOf(s), done, at) && TurnedOver(s, t, r, at)
    requires r.id in start.releases && start.releases[r.id] == r && r.id !in Ids(done)
    ensures Ticked(start, PlaneOf(t), done + [r], at)
  {
    AdvancingExtendsTick(start.releases, s.repo.releases, done, r, at);
    var before, vs, after := start.versions, s.store.versions, t.store.versions;
    if Starts(r) {
      RollingExtendsTick(before, vs, after, done, r, C.Scheduled, C.RollingOut, at);
    } else if Finishes(r) {
      RollingExtendsTick(before, vs, after, done, r, C.RollingOut, C.Published, at);
    } else {
      IdleExtendsTick(before, vs, done, r, at);
    }
  }

  /** The listed releases a pass has still to handle: stored as listed at its start, each once. */
  ghost predicate ToHandle(start: Releases, done: seq<Release>, todo: seq<Release>) {
    && (forall i :: 0 <= i < |todo| ==>
                      todo[i].id in start && start[todo[i].id] == todo[i] && todo[i].id !in Ids(done))
    && (forall i, j :: 0 <= i < j < |todo| ==> todo[i].id != todo[j].id)
  }

  lemma HandleOne(start: Releases, done: seq<Release>, todo: seq<Release>)
    requires ToHandle(start, done, todo) && todo != []
    ensures ToHandle(start, done + [todo[0]], todo[1..])
  {
    OneMoreId(done, todo[0]);
  }

  /** One turn of the loop, run alone, extends the pass by the release it handles. */
  lemma TurnLeads(
    start: Plane, s: Shared, done: seq<Release>, r: Release, rest: seq<Release>, at: int, all: seq<Release>)
    returns (t: Shared)
    requires Numbered(s.store) && Ticked(start, PlaneOf(s), done, at)
    requires r.id in start.releases && start.releases[r.id] == r && r.id !in Ids(done)
    ensures Leads(s, Advancing([r] + rest), at, all, Turn(t, Some(Advancing(rest))))
    ensures Numbered(t.store) && Ticked(start, PlaneOf(t), done + [r], at)
  {
    t := AdvanceLeads(s, r, rest, at, all);
    TurnExtendsTick(start, s, t, r, done, at);
  }

  /** The pass over the releases still listed, run alone to its end. */
  lemma {:induction false} PassLeads(
    start: Plane, s: Shared, done: seq<Release>, todo: seq<Release>, at: int, all: seq<Release>) returns (t: Shared)
    requires Numbered(s.store) && Ticked(start, PlaneOf(s), done, at) && ToHandle(start.releases, done, todo)
    ensures Leads(s, Advancing(todo), at, all, Turn(t, None))
    ensures Ticked(start, PlaneOf(t), done + todo, at)
    decreases |todo|
  {
    if todo == [] {
      t := s;
      assert done + todo == done;
      LeadsOn(s, Advancing(todo), at, all, Turn(t, None));
    } else {
      var r, rest := todo[0], todo[1..];
      assert todo == [r] + rest && done + [r] + rest == done + todo;
      var mid := TurnLeads(start, s, done, r, rest, at, all);
      HandleOne(start.releases, done, todo);
      t := PassLeads(start, mid, done + [r], rest, at, all);
      LeadsThrough(s, Advancing(todo), at, all, Turn(mid, Some(Advancing(rest))), Turn(t, None));
    }
  }

  /** A scheduler alone makes exactly the pass over the page it lists. */
  lemma SchedulerLeads(s: Shared, at: int, all: seq<Release>) returns (t: Shared)
    requires Numbered(s.store) && OldestFirst(s.repo.releases, all)
    ensures Leads(s, Listing, at, all, Turn(t, None))
    ensures Ticked(PlaneOf(s), PlaneOf(t), Page(all, 1, 200), at) && Pass(PlaneOf(s), PlaneOf(t))
  {
    var page := Page(all, 1, 200);
    PageToHandle(s.repo.releases, all);
    NothingTicked(PlaneOf(s), at);
    t := PassLeads(PlaneOf(s), s, [], page, at, all);
    assert [] + page == page;
    TickedIsPass(PlaneOf(s), PlaneOf(t), all, at);
    ListingLeads(s, at, all, Turn(t, None));
  }

  lemma ListingLeads(s: Shared, at: int, all: seq<Release>, t: Turn)
    requires OldestFirst(s.repo.releases, all) && Leads(s, Advancing(Page(all, 1, 200)), at, all, t)
    ensures Leads(s, Listing, at, all, t)
  {
    LeadsOn(s, Listing, at, all, t);
  }

  lemma PageToHandle(releases: Releases, all: seq<Release>)
    requires OldestFirst(releases, all)
    ensures ToHandle(releases, [], Page(all, 1, 200))
  {
    assert Listed(releases, Page(all, 1, 200));
    PageEntries(releases, Page(all, 1, 200));
  }

  lemma TickedIsPass(s: Plane, t: Plane, all: seq<Release>, at: int)
    requires OldestFirst(s.releases, all) && Ticked(s, t, Page(all, 1, 200), at)
    ensures Pass(s, t)
  {
    assert Listed(s.releases, Page(all, 1, 200));
  }

  // ---------------------------------------------------- the other operations

  /** `TransitionRelease`, alone: stored exactly when the token is fresh and the change is legal. */
  lemma TransitionLeads(s: Shared, id: string, to: State, reason: string, token: int, at: int, all: seq<Release>)
    returns (t: Shared)
    requires Keyed(s.repo.releases)
    ensures Leads(s, GettingRelease(id, to, reason, token, Return), at, all, Turn(t, None))
    ensures t.store == s.store && t.repo.idempotency == s.repo.idempotency
    ensures if id in s.repo.releases && s.repo.releases[id].fencingToken < token
               && Admits(s.repo.releases[id].state, to) then
              id in t.repo.releases && t.repo.releases == s.repo.releases[id := t.repo.releases[id]]
              && Carries(s.repo.releases[id], t.repo.releases[id], to, reason, token, at)
            else t == s
  {
    var get := GettingRelease(id, to, reason, token, Return);
    if id in s.repo.releases { CanIffAdmitted(s.repo.releases[id], to); }
    var c := Call(s, get, at, all);
    if c.next.Some? {
      t := Call(s, c.next.value, at, all).shared;
      LeadsOn(s, c.next.value, at, all, Turn(t, None));
    } else {
      t := s;
    }
    LeadsOn(s, get, at, all, Turn(t, None));
  }

  /** `RetryRelease`, alone: exactly a failed release is retried, under the next token. */
  lemma RetryLeads(s: Shared, id: string, at: int, all: seq<Release>) returns (t: Shared)
    requires Keyed(s.repo.releases)
    ensures Leads(s, GettingForRetry(id), at, all, Turn(t, None))
    ensures t.store == s.store && t.repo.idempotency == s.repo.idempotency
    ensures if id in s.repo.releases && s.repo.releases[id].state == Failed then
              id in t.repo.releases && t.repo.releases == s.repo.releases[id := t.repo.releases[id]]
              && Carries(s.repo.releases[id], t.repo.releases[id], State.Retrying, "",
                         s.repo.releases[id].fencingToken + 1, at)
            else t == s
  {
    var c := Call(s, GettingForRetry(id), at, all);
    if c.next.Some? {
      t := Call(s, c.next.value, at, all).shared;
      LeadsOn(s, c.next.value, at, all, Turn(t, None));
    } else {
      t := s;
    }
    LeadsOn(s, GettingForRetry(id), at, all, Turn(t, None));
  }

  /** `ApplyHealthGate`, alone: pauses exactly a running release whose wave is failing, under a fresh token. */
  lemma HealthGateLeads(s: Shared, id: string, gate: HealthGate, token: int, reason: string, at: int, all: seq<Release>)
    returns (t: Shared)
    requires Keyed(s.repo.releases)
    ensures Leads(s, Assessing(id, gate, token, reason), at, all, Turn(t, None))
    ensures t.store == s.store && t.repo.idempotency == s.repo.idempotency
    ensures if id in s.repo.releases && Failing(s.repo.releases[id], gate)
               && s.repo.releases[id].fencingToken < token then
              id in t.repo.releases && t.repo.releases == s.repo.releases[id := t.repo.releases[id]]
              && Carries(s.repo.releases[id], t.repo.releases[id], Paused, reason, token, at)
            else t == s
  {
    var p := Assessing(id, gate, token, reason);
    if id in s.repo.releases && Failing(s.repo.releases[id], gate) {
      t := TransitionLeads(s, id, Paused, reason, token, at, all);
    } else {
      t := s;
    }
    LeadsOn(s, p, at, all, Turn(t, None));
  }

  /** `TransitionVersion`, alone: stored exactly for the expected revision and a legal change. */
  lemma VersionTransitionLeads(
    s: Shared, ref: VersionRef, to: C.VersionState, expected: int, at: int, all: seq<Release>)
    returns (t: Shared)
    requires Numbered(s.store)
    ensures Leads(s, GettingVersion(ref, to, expected, VersionReturn), at, all, Turn(t, None))
    ensures t == if ref in s.store.versions && s.store.versions[ref].revision == expected
                    && C.VersionAdmits(s.store.versions[ref].state, to) then
                   var v := s.store.versions[ref].(state := to, updatedAt := at, revision := expected + 1);
                   s.(store := s.store.(versions := s.store.versions[ref := v]))
                 else s
  {
    var get := GettingVersion(ref, to, expected, VersionReturn);
    if ref in s.store.versions { C.VersionCanIffAdmitted(s.store.versions[ref], to); }
    var c := Call(s, get, at, all);
    if c.next.Some? {
      t := Call(s, c.next.value, at, all).shared;
      LeadsOn(s, c.next.value, at, all, Turn(t, None));
    } else {
      t := s;
    }
    LeadsOn(s, get, at, all, Turn(t, None));
  }

  /** `CreateVersion`, alone: an acceptable version gets the first free number; nothing else is stored. */
  lemma CreateVersionLeads(s: Shared, v: C.ConfigVersion, valueOk: bool, at: int, all: seq<Release>)
    returns (t: Shared, n: int)
    requires Numbered(s.store) && Gapless(s.store)
    ensures Leads(s, Numbering(v, valueOk, DependencyCheck()), at, all, Turn(t, None))
    ensures n >= 1 && VersionRef(v.configID, n) !in s.store.versions
    ensures forall k :: 1 <= k < n ==> VersionRef(v.configID, k) in s.store.versions
    ensures t == if Acceptable(s.store, v.configID, v.(number := n), valueOk) then
                   s.(store := s.store.(versions := s.store.versions[VersionRef(v.configID, n) := v.(number := n)]))
                 else s
  {
    n := NextNumber(s.store.versions.Keys, v.configID);
    FreshNumber(s.store, v.configID);
    var w := v.(number := n);
    t := if Acceptable(s.store, v.configID, w, valueOk) then Call(s, InsertingVersion(w), at, all).shared else s;
    LeadsOn(s, InsertingVersion(w), at, all, Turn(Call(s, InsertingVersion(w), at, all).shared, None));
    if NumberTurn(s, v, valueOk, DependencyCheck()).next.Some? {
      LeadsOn(s, CheckingVersion(w, DependencyCheck()), at, all, Turn(t, None));
    }
    LeadsOn(s, Numbering(v, valueOk, DependencyCheck()), at, all, Turn(t, None));
  }

  /** `CreateRelease`, alone: stored exactly when every version is releasable and neither id nor key is taken. */
  lemma {:induction false} CreateReleaseLeads(
    s: Shared, draft: Release, refs: seq<VersionRef>, at: int, all: seq<Release>)
    returns (t: Shared)
    ensures Leads(s, CreatingRelease(draft, refs), at, all, Turn(t, None)) && t.store == s.store
    ensures t.repo == if Releasable(s.store.versions, refs) && Unused(s.repo, draft.id, draft.idempotencyKey) then
                        Repo(s.repo.releases[draft.id := draft],
                             WithKey(s.repo.idempotency, draft.idempotencyKey, draft.id))
                      else s.repo
    decreases |refs|
  {
    var p := CreatingRelease(draft, refs);
    if refs != [] && refs[0] in s.store.versions && s.store.versions[refs[0]].state in {C.Scheduled, C.Reviewing} {
      assert refs == [refs[0]] + refs[1..];
      t := CreateReleaseLeads(s, draft, refs[1..], at, all);
    } else {
      t := Call(s, p, at, all).shared;
    }
    LeadsOn(s, p, at, all, Turn(t, None));
  }

  // ------------------------------------------------------- runs of the system

  ghost function Steps(w: World, actions: seq<Action>): World
    decreases |actions|
  {
    if actions == [] then w else Steps(Step(w, actions[0]), actions[1..])
  }

  lemma {:induction false} RunsJoin(actions: seq<Action>, more: seq<Action>)
    ensures Exec(actions + more) == Steps(Exec(actions), more)
    decreases |more|
  {
    if more == [] {
      assert actions + more == actions;
    } else {
      ExecOneMore(actions, more[0]);
      RunsJoin(actions + [more[0]], more[1..]);
      assert actions + [more[0]] + more[1..] == actions + more;
    }
  }

  function Calls(pid: nat, at: int, all: seq<Release>, n: nat): seq<Action> {
    seq(n, _ => Resume(pid, at, all))
  }

  /** The world in which one operation has come to t and nothing else has moved. */
  ghost function Aside(w: World, pid: nat, t: Turn): World {
    World(t.shared, if t.next.Some? then w.procs[pid := t.next.value] else w.procs - {pid})
  }

  lemma StepsOneMore(w: World, pid: nat, at: int, all: seq<Release>, n: nat)
    requires n > 0
    ensures Steps(w, Calls(pid, at, all, n)) == Steps(Step(w, Resume(pid, at, all)), Calls(pid, at, all, n - 1))
  {
    assert Calls(pid, at, all, n)[1..] == Calls(pid, at, all, n - 1);
  }

  lemma {:induction false} NobodyMoves(w: World, pid: nat, at: int, all: seq<Release>, n: nat)
    requires pid !in w.procs
    ensures Steps(w, Calls(pid, at, all, n)) == w
  {
    if n > 0 {
      StepsOneMore(w, pid, at, all, n);
      NobodyMoves(w, pid, at, all, n - 1);
    }
  }

  /** Calls in a row are a run of the system in which no other operation moves. */
  lemma {:induction false} SoloIsRun(w: World, pid: nat, at: int, all: seq<Release>, n: nat)
    requires pid in w.procs
    ensures Steps(w, Calls(pid, at, all, n)) == Aside(w, pid, Solo(w.shared, w.procs[pid], at, all, n))
    decreases n
  {
    if n == 0 {
      assert w.procs[pid := w.procs[pid]] == w.procs;
    } else {
      var c := Call(w.shared, w.procs[pid], at, all);
      var next := Aside(w, pid, c);
      assert Step(w, Resume(pid, at, all)) == next;
      StepsOneMore(w, pid, at, all, n);
      if c.next.None? {
        NobodyMoves(next, pid, at, all, n - 1);
      } else {
        SoloIsRun(next, pid, at, all, n - 1);
        AsideTwice(w, pid, c, Solo(c.shared, c.next.value, at, all, n - 1));
      }
    }
  }

  lemma AsideTwice(w: World, pid: nat, c: Turn, t: Turn)
    requires c.next.Some?
    ensures Aside(Aside(w, pid, c), pid, t) == Aside(w, pid, t)
  {
    assert w.procs[pid := c.next.value] - {pid} == w.procs - {pid};
  }

  /** A new operation, run alone up to t, in a world where others are in flight. */
  lemma SpawnedRuns(w: World, pid: nat, p: Proc, at: int, all: seq<Release>, n: nat)
    requires pid !in w.procs && Entry(p)
    ensures Steps(w, [Spawn(pid, p)] + Calls(pid, at, all, n)) == Aside(w, pid, Solo(w.shared, p, at, all, n))
  {
    var started := w.(procs := w.procs[pid := p]);
    var run := [Spawn(pid, p)] + Calls(pid, at, all, n);
    assert run[1..] == Calls(pid, at, all, n) && Step(w, run[0]) == started;
    SoloIsRun(started, pid, at, all, n);
    AsideTwice(w, pid, Turn(w.shared, Some(p)), Solo(w.shared, p, at, all, n));
  }

  /** A new operation can be run alone to wherever its own calls lead. */
  lemma Begin(actions: seq<Action>, pid: nat, p: Proc, at: int, all: seq<Release>, t: Turn) returns (more: seq<Action>)
    requires pid !in Exec(actions).procs && Entry(p) && Leads(Exec(actions).shared, p, at, all, t)
    ensures Exec(actions + more) == Aside(Exec(actions), pid, t)
  {
    var n: nat :| Solo(Exec(actions).shared, p, at, all, n) == t;
    more := [Spawn(pid, p)] + Calls(pid, at, all, n);
    RunsJoin(actions, more);
    SpawnedRuns(Exec(actions), pid, p, at, all, n);
  }

  /** So can one that is in flight. */
  lemma Continue(actions: seq<Action>, pid: nat, at: int, all: seq<Release>, t: Turn) returns (more: seq<Action>)
    requires pid in Exec(actions).procs && Leads(Exec(actions).shared, Exec(actions).procs[pid], at, all, t)
    ensures Exec(actions + more) == Aside(Exec(actions), pid, t)
  {
    var n: nat :| Solo(Exec(actions).shared, Exec(actions).procs[pid], at, all, n) == t;
    more := Calls(pid, at, all, n);
    RunsJoin(actions, more);
    SoloIsRun(Exec(actions), pid, at, all, n);
  }

  lemma ReachableIsKeyed(actions: seq<Action>)
    ensures Keyed(Exec(actions).shared.repo.releases) && Numbered(Exec(actions).shared.store)
  {
    Reachable(actions);
    RecordsAreKeyed(Exec(actions).shared);
  }

  lemma RecordsAreKeyed(s: Shared)
    requires Recorded(s)
    ensures Keyed(s.repo.releases)
  {
    forall id | id in s.repo.releases ensures s.repo.releases[id].id == id {
      CurrentIsSeen(s, id);
    }
  }

  lemma NobodyElseMoved(w: World, pid: nat, t: Shared)
    requires pid !in w.procs
    ensures Aside(w, pid, Turn(t, None)) == World(t, w.procs)
  {
    assert w.procs - {pid} == w.procs;
  }

  /**
   From any reachable world, whatever else is in flight, a new scheduler can make one whole pass, and
   for every way to list the oldest first it makes the pass over that listing.
   */
  lemma PassIsPossible(actions: seq<Action>, pid: nat, at: int, all: seq<Release>) returns (more: seq<Action>)
    requires pid !in Exec(actions).procs && OldestFirst(Exec(actions).shared.repo.releases, all)
    ensures Exec(actions + more).procs == Exec(actions).procs
    ensures Ticked(PlaneOf(Exec(actions).shared), PlaneOf(Exec(actions + more).shared), Page(all, 1, 200), at)
  {
    ReachableIsKeyed(actions);
    var t := SchedulerLeads(Exec(actions).shared, at, all);
    more := Begin(actions, pid, Listing, at, all, Turn(t, None));
    NobodyElseMoved(Exec(actions), pid, t);
  }

  /** A release with fewer than 200 strictly older ones can be listed by that pass. */
  lemma PassOverIsPossible(actions: seq<Action>, pid: nat, at: int, id: string) returns (more: seq<Action>)
    requires pid !in Exec(actions).procs && id in Exec(actions).shared.repo.releases
    requires |Older(Exec(actions).shared.repo.releases, id)| < 200
    ensures Exec(actions + more).procs == Exec(actions).procs
    ensures PassOver(PlaneOf(Exec(actions).shared), PlaneOf(Exec(actions + more).shared), id)
  {
    ReachableIsKeyed(actions);
    var releases := Exec(actions).shared.repo.releases;
    var all := ListingOver(releases, id);
    more := PassIsPossible(actions, pid, at, all);
  }

  lemma ListingOver(releases: Releases, id: string) returns (all: seq<Release>)
    requires Keyed(releases) && id in releases && |Older(releases, id)| < 200
    ensures OldestFirst(releases, all) && Listed(releases, Page(all, 1, 200)) && id in Ids(Page(all, 1, 200))
  {
    all := ArrangementAfter(releases, id, Older(releases, id));
    OnFirstPageIff(releases, all, |Older(releases, id)|);
  }

  lemma PassOverKeepsElders(s: Plane, t: Plane, id: string)
    requires PassOver(s, t, id) && id in s.releases
    ensures id in t.releases && Older(t.releases, id) == Older(s.releases, id)
  {
    assert SameAges(s.releases, t.releases);
    SameAgesSameElders(s.releases, t.releases, id);
  }

  /** Passes that each list the release lead from one world to another, and nothing else has moved. */
  ghost predicate PassRun(w: World, v: World, run: seq<Plane>, id: string) {
    && run != [] && PassesOver(run, id) && run[0] == PlaneOf(w.shared) && run[|run| - 1] == PlaneOf(v.shared)
    && v.procs == w.procs
    && id in v.shared.repo.releases && |Older(v.shared.repo.releases, id)| < 200
  }

  lemma ExtendRun(w: World, v: World, u: World, run: seq<Plane>, id: string)
    requires PassRun(w, v, run, id) && PassOver(PlaneOf(v.shared), PlaneOf(u.shared), id) && u.procs == v.procs
    ensures PassRun(w, u, run + [PlaneOf(u.shared)], id)
  {
    PassOverKeepsElders(PlaneOf(v.shared), PlaneOf(u.shared), id);
    OneMorePass(run, PlaneOf(u.shared), id);
  }

  lemma OnePassMore(w: World, actions: seq<Action>, run: seq<Plane>, pid: nat, at: int, id: string)
    returns (more: seq<Action>, next: Plane)
    requires PassRun(w, Exec(actions), run, id) && pid !in w.procs
    ensures PassRun(w, Exec(actions + more), run + [next], id)
  {
    more := PassOverIsPossible(actions, pid, at, id);
    next := PlaneOf(Exec(actions + more).shared);
    ExtendRun(w, Exec(actions), Exec(actions + more), run, id);
  }

  /** Any number of passes that list the release, one after the other, with nothing in between. */
  lemma {:induction false} PassesArePossible(actions: seq<Action>, pid: nat, at: int, id: string, k: nat)
    returns (more: seq<Action>, run: seq<Plane>)
    requires pid !in Exec(actions).procs && id in Exec(actions).shared.repo.releases
    requires |Older(Exec(actions).shared.repo.releases, id)| < 200
    ensures |run| == k + 1 && PassRun(Exec(actions), Exec(actions + more), run, id)
    decreases k
  {
    if k == 0 {
      more, run := [], [PlaneOf(Exec(actions).shared)];
      assert actions + more == actions;
    } else {
      var first, front := PassesArePossible(actions, pid, at, id, k - 1);
      var last, next := OnePassMore(Exec(actions), actions + first, front, pid, at, id);
      more, run := first + last, front + [next];
      assert actions + more == actions + first + last;
    }
  }

  lemma OneMorePass(run: seq<Plane>, next: Plane, id: string)
    requires run != [] && PassesOver(run, id) && PassOver(run[|run| - 1], next, id)
    ensures PassesOver(run + [next], id)
  {
    forall i | 0 < i < |run + [next]| ensures PassOverAt(run + [next], i, id) {
      assert i < |run| ==> PassOverAt(run, i, id);
    }
  }

  /** From any reachable world passes can take a release that awaits them to success. */
  lemma AwaitingCanSucceed(actions: seq<Action>, pid: nat, at: int, id: string) returns (more: seq<Action>)
    requires pid !in Exec(actions).procs && Awaiting(Exec(actions).shared.repo.releases, id)
    requires |Older(Exec(actions).shared.repo.releases, id)| < 200
    ensures id in Exec(actions + more).shared.repo.releases
    ensures Exec(actions + more).shared.repo.releases[id].state == Succeeded
    ensures Exec(actions + more).procs == Exec(actions).procs
    ensures var r := Exec(actions).shared.repo.releases[id];
            Publishes(Exec(actions).shared.store.versions, Exec(actions + more).shared.store.versions,
                      r.versionRefs, Starts(r))
  {
    var last := Due(Exec(actions).shared.repo.releases[id]);
    var run: seq<Plane>;
    more, run := PassesArePossible(actions, pid, at, id, last);
    ListedReleaseSucceedsOnTime(run, id, last);
  }

  /** A paused release resumed, or a failed one retried, and nothing else touched. */
  ghost predicate BroughtBack(s: Shared, t: Shared, id: string) {
    && id in s.repo.releases && id in t.repo.releases && t.store == s.store
    && t.repo.releases == s.repo.releases[id := t.repo.releases[id]]
    && t.repo.releases[id].versionRefs == s.repo.releases[id].versionRefs
    && t.repo.releases[id].createdAt == s.repo.releases[id].createdAt
    && t.repo.releases[id].state == if s.repo.releases[id].state == Failed then State.Retrying else Running
  }

  /** An operator can resume a paused release and retry a failed one. */
  lemma OperatorBringsBack(actions: seq<Action>, pid: nat, at: int, id: string) returns (more: seq<Action>)
    requires pid !in Exec(actions).procs && id in Exec(actions).shared.repo.releases
    requires Exec(actions).shared.repo.releases[id].state in {Paused, Failed}
    ensures Exec(actions + more).procs == Exec(actions).procs
    ensures BroughtBack(Exec(actions).shared, Exec(actions + more).shared, id)
  {
    var s := Exec(actions).shared;
    ReachableIsKeyed(actions);
    var p, t;
    if s.repo.releases[id].state == Failed {
      p := GettingForRetry(id);
      t := RetryLeads(s, id, at, []);
    } else {
      var token := s.repo.releases[id].fencingToken + 1;
      p := GettingRelease(id, Running, "", token, Return);
      t := TransitionLeads(s, id, Running, "", token, at, []);
    }
    more := Begin(actions, pid, p, at, [], Turn(t, None));
    NobodyElseMoved(Exec(actions), pid, t);
  }

  lemma BroughtBackAwaits(s: Shared, t: Shared, id: string)
    requires BroughtBack(s, t, id)
    ensures Awaiting(t.repo.releases, id) && Older(t.repo.releases, id) == Older(s.repo.releases, id)
    ensures Starts(t.repo.releases[id]) <==> s.repo.releases[id].state == Failed
  {
    assert SameAges(s.repo.releases, t.repo.releases);
    SameAgesSameElders(s.repo.releases, t.repo.releases, id);
  }

  /** The release has still to be started, or started again, to succeed. */
  predicate ToBeStarted(r: Release) {
    Starts(r) || r.state == Failed
  }

  /**
   No interleaving leads to a dead end: in every reachable world, whatever stale operations are in
   flight, a release that is not rolled back or cancelled can be brought to success if fewer than 200
   releases are strictly older, by passes alone but for one `resume` if it is paused and one retry if it
   has failed. By `TerminalStatesAreFinal` and `YoungReleasesAreNeverAdvanced` both conditions are needed.
   */
  lemma EveryReleaseCanSucceed(actions: seq<Action>, pid: nat, at: int, id: string) returns (more: seq<Action>)
    requires pid !in Exec(actions).procs && id in Exec(actions).shared.repo.releases
    requires Exec(actions).shared.repo.releases[id].state !in {RolledBack, Cancelled}
    requires |Older(Exec(actions).shared.repo.releases, id)| < 200
    ensures id in Exec(actions + more).shared.repo.releases
    ensures Exec(actions + more).shared.repo.releases[id].state == Succeeded
    ensures Exec(actions + more).procs == Exec(actions).procs
    ensures var r := Exec(actions).shared.repo.releases[id];
            r.state != Succeeded ==>
              Publishes(Exec(actions).shared.store.versions, Exec(actions + more).shared.store.versions,
                        r.versionRefs, ToBeStarted(r))
  {
    match Exec(actions).shared.repo.releases[id].state
    case Succeeded =>
      more := [];
      assert actions + more == actions;
    case Pending => more := AwaitingCanSucceed(actions, pid, at, id);
    case Retrying => more := AwaitingCanSucceed(actions, pid, at, id);
    case Running => more := AwaitingCanSucceed(actions, pid, at, id);
    case _ => more := BroughtBackCanSucceed(actions, pid, at, id);
  }

  lemma BroughtBackCanSucceed(actions: seq<Action>, pid: nat, at: int, id: string) returns (more: seq<Action>)
    requires pid !in Exec(actions).procs && id in Exec(actions).shared.repo.releases
    requires Exec(actions).shared.repo.releases[id].state in {Paused, Failed}
    requires |Older(Exec(actions).shared.repo.releases, id)| < 200
    ensures id in Exec(actions + more).shared.repo.releases
    ensures Exec(actions + more).shared.repo.releases[id].state == Succeeded
    ensures Exec(actions + more).procs == Exec(actions).procs
    ensures var r := Exec(actions).shared.repo.releases[id];
            Publishes(Exec(actions).shared.store.versions, Exec(actions + more).shared.store.versions,
                      r.versionRefs, ToBeStarted(r))
  {
    var back := OperatorBringsBack(actions, pid, at, id);
    BroughtBackAwaits(Exec(actions).shared, Exec(actions + back).shared, id);
    var on := AwaitingCanSucceed(actions + back, pid, at, id);
    more := back + on;
    assert actions + more == actions + back + on;
  }

  /** The request was stored: the state asked for, under its token, with its reason, and nothing else. */
  ghost predicate Stored(s: Shared, t: Shared, id: string, to: State, reason: string, token: int, at: int) {
    && id in s.repo.releases && id in t.repo.releases && t.store == s.store
    && t.repo == s.repo.(releases := s.repo.releases[id := t.repo.releases[id]])
    && Carries(s.repo.releases[id], t.repo.releases[id], to, reason, token, at)
  }

  /**
   What each handler achieves in every reachable world, if nobody interrupts it: with a fresh token a
   rollback is stored exactly for a running, paused, succeeded or failed release, a pause and a failure
   exactly for a running one, a resume and a cancellation exactly for a pending, paused or retrying one.
   */
  lemma HandlersStoreByState(
    actions: seq<Action>, pid: nat, id: string, to: State, reason: string, token: int, at: int)
    returns (more: seq<Action>)
    requires pid !in Exec(actions).procs && id in Exec(actions).shared.repo.releases && to != Succeeded
    ensures Exec(actions + more).procs == Exec(actions).procs
    ensures var r := Exec(actions).shared.repo.releases[id];
            var stored := Stored(Exec(actions).shared, Exec(actions + more).shared, id, to, reason, token, at);
            && (stored || Exec(actions + more).shared == Exec(actions).shared)
            && (token <= r.fencingToken ==> !stored)
            && (token > r.fencingToken && to == RolledBack ==>
                  (stored <==> r.state in {Running, Paused, Succeeded, Failed}))
            && (token > r.fencingToken && (to == Paused || to == Failed) ==> (stored <==> r.state == Running))
            && (token > r.fencingToken && (to == Running || to == Cancelled) ==>
                  (stored <==> r.state in {Pending, Paused, Retrying}))
  {
    var s := Exec(actions).shared;
    ReachableIsKeyed(actions);
    var t := TransitionLeads(s, id, to, reason, token, at, []);
    more := Begin(actions, pid, GettingRelease(id, to, reason, token, Return), at, [], Turn(t, None));
    NobodyElseMoved(Exec(actions), pid, t);
    StoredByState(s, t, id, to, reason, token, at);
  }

  lemma StoredByState(s: Shared, t: Shared, id: string, to: State, reason: string, token: int, at: int)
    requires id in s.repo.releases
    requires if s.repo.releases[id].fencingToken < token && Admits(s.repo.releases[id].state, to) then
               Stored(s, t, id, to, reason, token, at)
             else t == s
    ensures var r, stored := s.repo.releases[id], Stored(s, t, id, to, reason, token, at);
            && (stored || t == s)
            && (stored <==> token > r.fencingToken && Admits(r.state, to))
  {
  }
}
