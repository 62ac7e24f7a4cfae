/** What holds in every run of the protocol, stated over reachable worlds only. */
module ProtocolTheorems {
  import opened Common
  import opened ReleaseDomain
  import opened ReleaseRepository
  import opened ConfigRepository
  import opened Protocol
  import C = ConfigDomain

  lemma ExtendsOn(a: Shared, b: Shared, c: Shared)
    requires Extends(a, b) && Extends(b, c)
    ensures Extends(a, c)
  {
    forall ref | ref in a.store.versions ensures Known(c.store.versions, a.store.versions[ref]) {
      KnownPersists(b.store, c.store, a.store.versions[ref]);
    }
  }

  /** A later world of the same run keeps every history, configuration and version content. */
  lemma {:induction false} LaterExtendsEarlier(actions: seq<Action>, n: nat)
    requires n <= |actions|
    ensures Extends(Exec(actions[..n]).shared, Exec(actions).shared)
    decreases |actions|
  {
    if n == |actions| {
      assert actions[..n] == actions;
      Reachable(actions);
      StoreKept(Exec(actions).shared.store);
    } else {
      var front := actions[..|actions| - 1];
      assert front[..n] == actions[..n];
      LaterExtendsEarlier(front, n);
      LastStepExtends(front, actions[|actions| - 1]);
      assert actions == front + [actions[|actions| - 1]];
      ExtendsOn(Exec(actions[..n]).shared, Exec(front).shared, Exec(actions).shared);
    }
  }

  lemma LastStepExtends(actions: seq<Action>, a: Action)
    ensures Extends(Exec(actions).shared, Exec(actions + [a]).shared)
  {
    Reachable(actions);
    ExecOneMore(actions, a);
    StepKeeps(Exec(actions), a);
  }

  /** A release update is accepted exactly when the stored record is the one its caller read. */
  lemma AcceptedUpdateReplacesTheRecordRead(actions: seq<Action>, pid: nat)
    requires pid in Exec(actions).procs && Exec(actions).procs[pid].PuttingRelease?
    ensures var s := Exec(actions).shared;
            var PuttingRelease(read, next, _) := Exec(actions).procs[pid];
            && next.id == read.id && read.id in s.repo.releases
            && (UpdateRelease(s.repo, next, read.revision).error.None? <==> s.repo.releases[read.id] == read)
  {
    Reachable(actions);
    CurrentRevisionIsCurrentRecord(Exec(actions).shared, Exec(actions).procs[pid].read);
  }

  /** The same for versions. */
  lemma AcceptedVersionUpdateReplacesTheVersionRead(actions: seq<Action>, pid: nat)
    requires pid in Exec(actions).procs && Exec(actions).procs[pid].PuttingVersion?
    ensures var st := Exec(actions).shared.store;
            var PuttingVersion(read, next, _) := Exec(actions).procs[pid];
            && next.Ref() == read.Ref() && read.Ref() in st.versions
            && (ReplaceVersion(st, next, read.revision).error.None? <==> st.versions[read.Ref()] == read)
  {
    Reachable(actions);
    assert ProcInv(Exec(actions).shared, Exec(actions).procs[pid]);
  }

  /** A wave advance computed from an old listing never lands on a release that stopped running since. */
  lemma StaleAdvanceIsRefused(actions: seq<Action>, pid: nat)
    requires pid in Exec(actions).procs && Exec(actions).procs[pid].PuttingRelease?
    requires var p := Exec(actions).procs[pid];
             AdvancesWave(p.read, p.next) && p.read.id in Exec(actions).shared.repo.releases
             && Exec(actions).shared.repo.releases[p.read.id].state != Running
    ensures forall at, all :: Step(Exec(actions), Resume(pid, at, all)).shared == Exec(actions).shared
  {
    AcceptedUpdateReplacesTheRecordRead(actions, pid);
  }

  /** Every history of every run is legal from its first record to the stored one. */
  lemma HistoriesAreLegal(actions: seq<Action>, id: string)
    requires id in Exec(actions).shared.repo.releases || id in Exec(actions).shared.history
    ensures id in Exec(actions).shared.repo.releases && id in Exec(actions).shared.history
    ensures RecordedAs(Exec(actions).shared.history[id], id, Exec(actions).shared.repo.releases[id])
  {
    Reachable(actions);
  }

  /** How a later record of a release may differ from an earlier one. */
  ghost predicate MovesForward(a: Release, b: Release) {
    && a.waves == b.waves && a.versionRefs == b.versionRefs && a.idempotencyKey == b.idempotencyKey
    && a.revision <= b.revision && (a.revision == b.revision ==> a == b)
    && a.currentWave <= b.currentWave && a.fencingToken <= b.fencingToken
    && (a.state != b.state ==> a.fencingToken < b.fencingToken)
    && (a.state in {RolledBack, Cancelled} ==> a == b)
  }

  lemma HistoryMovesForward(h: seq<Release>, i: nat, j: nat)
    requires Chronicle(h) && i <= j < |h|
    ensures MovesForward(h[i], h[j])
  {
    ChronicleIsMonotone(h, i, j);
    if h[i].state in {RolledBack, Cancelled} {
      TerminalStatesAreFinal(h, i);
    }
  }

  /** The record of a release at two times of one run. */
  lemma RecordsOnlyMoveForward(actions: seq<Action>, n: nat, id: string)
    requires n <= |actions| && id in Exec(actions[..n]).shared.repo.releases
    ensures id in Exec(actions).shared.repo.releases
    ensures MovesForward(Exec(actions[..n]).shared.repo.releases[id], Exec(actions).shared.repo.releases[id])
  {
    HistoriesAreLegal(actions[..n], id);
    LaterExtendsEarlier(actions, n);
    HistoriesAreLegal(actions, id);
    var s, t := Exec(actions[..n]).shared, Exec(actions).shared;
    ExtendedRecordMoves(s.history[id], t.history[id], id, s.repo.releases[id], t.repo.releases[id]);
  }

  lemma ExtendedRecordMoves(h: seq<Release>, g: seq<Release>, id: string, a: Release, b: Release)
    requires RecordedAs(h, id, a) && RecordedAs(g, id, b) && h <= g
    ensures MovesForward(a, b)
  {
    assert g[|h| - 1] == h[|h| - 1];
    HistoryMovesForward(g, |h| - 1, |g| - 1);
  }

  /** A repository call appends at most one record to a history. */
  lemma CallAppendsAtMostOne(s: Shared, p: Proc, at: int, all: seq<Release>, id: string)
    requires id in Call(s, p, at, all).shared.history
    ensures |Call(s, p, at, all).shared.history[id]| <= 1 + if id in s.history then |s.history[id]| else 0
  {
    match p
    case PuttingRelease(read, next, cont) =>
    case CreatingRelease(draft, refs) =>
    case _ => assert Call(s, p, at, all).shared.history == s.history;
  }

  lemma StepAppendsAtMostOne(w: World, a: Action, id: string)
    requires id in Step(w, a).shared.history
    ensures |Step(w, a).shared.history[id]| <= 1 + if id in w.shared.history then |w.shared.history[id]| else 0
  {
    if a.Resume? && a.pid in w.procs {
      CallAppendsAtMostOne(w.shared, w.procs[a.pid], a.at, a.all, id);
    }
  }

  /** Histories are what was really stored: each entry was the current record of an earlier world. */
  lemma {:induction false} HistoryIsReal(actions: seq<Action>, id: string, i: nat) returns (n: nat)
    requires id in Exec(actions).shared.history && i < |Exec(actions).shared.history[id]|
    ensures n <= |actions| && id in Exec(actions[..n]).shared.repo.releases
    ensures Exec(actions[..n]).shared.repo.releases[id] == Exec(actions).shared.history[id][i]
    decreases |actions|
  {
    HistoriesAreLegal(actions, id);
    var h := Exec(actions).shared.history[id];
    if i == |h| - 1 {
      n := |actions|;
      assert actions[..n] == actions;
    } else {
      var m := |actions| - 1;
      StepAppendsAtMostOne(Exec(actions[..m]), actions[m], id);
      LaterExtendsEarlier(actions, m);
      n := HistoryIsReal(actions[..m], id, i);
      assert actions[..m][..n] == actions[..n];
    }
  }

  /** A release has succeeded only with its last wave reached. */
  lemma SucceededOnlyOnLastWave(actions: seq<Action>, id: string)
    requires id in Exec(actions).shared.repo.releases
    requires Exec(actions).shared.repo.releases[id].state == Succeeded
    ensures Exec(actions).shared.repo.releases[id].LastWave()
  {
    HistoriesAreLegal(actions, id);
    var h := Exec(actions).shared.history[id];
    assert h[|h| - 1].state == Succeeded;
  }

  lemma PublishedIsVouched(s: Shared, ref: VersionRef) returns (id: string)
    requires PublishedOnSuccess(s) && ref in s.store.versions && s.store.versions[ref].state == C.Published
    ensures id in s.history && Vouches(s.history[id], ref)
  {
    id :| id in s.history && Vouches(s.history[id], ref);
  }

  lemma VouchedSuccess(h: seq<Release>, ref: VersionRef) returns (i: nat)
    requires Chronicle(h) && Vouches(h, ref)
    ensures i < |h| && h[i].state == Succeeded && ref in h[i].versionRefs
    ensures h[|h| - 1].state in {Succeeded, RolledBack}
  {
    i :| 0 <= i < |h| && h[i].state == Succeeded;
    ChronicleIsMonotone(h, 0, i);
    SuccessIsOnlyRolledBack(h, i);
  }

  /**
   A published version is referenced by a release that had succeeded, on its last wave, at an earlier
   time of the run and that has at most been rolled back since.
   */
  lemma PublishedOnlyAfterSuccess(actions: seq<Action>, ref: VersionRef) returns (id: string, n: nat)
    requires ref in Exec(actions).shared.store.versions
    requires Exec(actions).shared.store.versions[ref].state == C.Published
    ensures n <= |actions| && id in Exec(actions[..n]).shared.repo.releases
    ensures var r := Exec(actions[..n]).shared.repo.releases[id];
            r.state == Succeeded && r.LastWave() && ref in r.versionRefs
    ensures id in Exec(actions).shared.repo.releases
    ensures Exec(actions).shared.repo.releases[id].state in {Succeeded, RolledBack}
  {
    Reachable(actions);
    id := PublishedIsVouched(Exec(actions).shared, ref);
    HistoriesAreLegal(actions, id);
    var i := VouchedSuccess(Exec(actions).shared.history[id], ref);
    n := HistoryIsReal(actions, id, i);
    SucceededOnlyOnLastWave(actions[..n], id);
  }

  /** However creations race, the version numbers of a configuration are 1..n with n < NextNumber. */
  lemma VersionNumbersHaveNoGaps(actions: seq<Action>, id: string, k: int)
    ensures var st := Exec(actions).shared.store;
            VersionRef(id, k) in st.versions <==> 1 <= k < NextNumber(st.versions.Keys, id)
  {
    Reachable(actions);
    NumbersAreContiguous(Exec(actions).shared.store, id, k);
  }

  /** Versions never disappear and never change content; configurations never change at all. */
  lemma VersionsAreImmutable(actions: seq<Action>, n: nat, ref: VersionRef)
    requires n <= |actions| && ref in Exec(actions[..n]).shared.store.versions
    ensures ref in Exec(actions).shared.store.versions
    ensures C.SameContent(Exec(actions[..n]).shared.store.versions[ref], Exec(actions).shared.store.versions[ref])
    ensures ref.configID in Exec(actions[..n]).shared.store.configs
    ensures ref.configID in Exec(actions).shared.store.configs
    ensures Exec(actions).shared.store.configs[ref.configID] == Exec(actions[..n]).shared.store.configs[ref.configID]
  {
    Reachable(actions[..n]);
    LaterExtendsEarlier(actions, n);
    assert Known(Exec(actions).shared.store.versions, Exec(actions[..n]).shared.store.versions[ref]);
  }

  /** Every version a stored release references exists, from its creation on. */
  lemma ReferencedVersionsExist(actions: seq<Action>, id: string, ref: VersionRef)
    requires id in Exec(actions).shared.repo.releases && ref in Exec(actions).shared.repo.releases[id].versionRefs
    ensures ref in Exec(actions).shared.store.versions
  {
    Reachable(actions);
  }

  /** No two releases of a run were created under the same idempotency key. */
  lemma OneReleasePerIdempotencyKey(actions: seq<Action>, i: string, j: string)
    requires i in Exec(actions).shared.repo.releases && j in Exec(actions).shared.repo.releases
    requires Exec(actions).shared.repo.releases[i].idempotencyKey != ""
    requires Exec(actions).shared.repo.releases[i].idempotencyKey
             == Exec(actions).shared.repo.releases[j].idempotencyKey
    ensures i == j
  {
    Reachable(actions);
  }
}
