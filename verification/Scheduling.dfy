/** What one `AdvanceReleases` pass does, and what any number of passes achieve (internal/application/service.go). */
module Scheduling {
  import opened Common
  import opened ReleaseDomain
  import opened ReleaseRepository
  import C = ConfigDomain

  type Releases = map<string, Release>
  type Versions = map<VersionRef, C.ConfigVersion>

  datatype Plane = Plane(releases: Releases, versions: Versions)

  /** The pass starts the release. */
  predicate Starts(r: Release) {
    r.state == Pending || r.state == Retrying
  }

  /** The pass completes the release. */
  predicate Finishes(r: Release) {
    r.state == Running && r.LastWave()
  }

  /** One pass on one release that nobody else touches. */
  function Advanced(r: Release, now: int): Release {
    if Starts(r) then
      r.(state := Running, fencingToken := r.fencingToken + 1, revision := r.revision + 1, updatedAt := now)
    else if Finishes(r) then
      r.(state := Succeeded, fencingToken := r.fencingToken + 1, revision := r.revision + 1, updatedAt := now)
    else if r.state == Running then
      r.(currentWave := r.currentWave + 1, revision := r.revision + 1, updatedAt := now)
    else r
  }

  /** The transition a pass asks for is the advance. */
  lemma CarriedIsAdvanced(r: Release, next: Release, to: State, now: int)
    requires Carries(r, next, to, "", r.fencingToken + 1, now)
    requires (Starts(r) && to == Running) || (Finishes(r) && to == Succeeded)
    ensures next == Advanced(r, now)
  {
  }

  /** A version moved from one given state to another, if it is in the first. */
  function Rolled(v: C.ConfigVersion, from: C.VersionState, to: C.VersionState, now: int): C.ConfigVersion {
    if v.state == from then v.(state := to, updatedAt := now, revision := v.revision + 1) else v
  }

  ghost predicate RolledOver(
    before: Versions, after: Versions, refs: seq<VersionRef>, from: C.VersionState, to: C.VersionState, now: int)
  {
    && after.Keys == before.Keys
    && (forall ref :: ref in before ==>
                        after[ref] == if ref in refs then Rolled(before[ref], from, to, now) else before[ref])
  }

  // ------------------------------------------------------------- one pass

  /** The i-th listed release starts and references the version. */
  predicate StartsAt(items: seq<Release>, i: int, ref: VersionRef) {
    0 <= i < |items| && Starts(items[i]) && ref in items[i].versionRefs
  }

  /** The i-th listed release completes and references the version. */
  predicate FinishesAt(items: seq<Release>, i: int, ref: VersionRef) {
    0 <= i < |items| && Finishes(items[i]) && ref in items[i].versionRefs
  }

  ghost predicate Started(items: seq<Release>, ref: VersionRef) {
    exists i :: StartsAt(items, i, ref)
  }

  ghost predicate Finished(items: seq<Release>, ref: VersionRef) {
    exists i :: FinishesAt(items, i, ref)
  }

  ghost predicate StartedThenFinished(items: seq<Release>, ref: VersionRef) {
    exists i, j :: StartsAt(items, i, ref) && FinishesAt(items, j, ref) && i < j
  }

  /** What a pass over the listed releases makes of a version: one move, two if the listing orders it so, or none. */
  ghost function TickedVersion(ref: VersionRef, v: C.ConfigVersion, items: seq<Release>, now: int): C.ConfigVersion {
    if v.state == C.Scheduled && StartedThenFinished(items, ref) then
      Rolled(Rolled(v, C.Scheduled, C.RollingOut, now), C.RollingOut, C.Published, now)
    else if v.state == C.Scheduled && Started(items, ref) then Rolled(v, C.Scheduled, C.RollingOut, now)
    else if v.state == C.RollingOut && Finished(items, ref) then Rolled(v, C.RollingOut, C.Published, now)
    else v
  }

  ghost predicate ReleasesTicked(before: Releases, after: Releases, items: seq<Release>, now: int) {
    && after.Keys == before.Keys
    && (forall id :: id in before ==>
                       after[id] == if id in Ids(items) then Advanced(before[id], now) else before[id])
  }

  ghost predicate VersionsTicked(before: Versions, after: Versions, items: seq<Release>, now: int) {
    && after.Keys == before.Keys
    && (forall ref :: ref in before ==> after[ref] == TickedVersion(ref, before[ref], items, now))
  }

  /** One pass over the given releases; it leaves nothing open. */
  ghost predicate Ticked(s: Plane, t: Plane, items: seq<Release>, now: int) {
    ReleasesTicked(s.releases, t.releases, items, now) && VersionsTicked(s.versions, t.versions, items, now)
  }

  lemma ListedOneMore(items: seq<Release>, r: Release, ref: VersionRef)
    ensures var more := items + [r];
            && (Started(more, ref) <==> Started(items, ref) || (Starts(r) && ref in r.versionRefs))
            && (Finished(more, ref) <==> Finished(items, ref) || (Finishes(r) && ref in r.versionRefs))
            && (StartedThenFinished(more, ref) <==>
                StartedThenFinished(items, ref) || (Started(items, ref) && Finishes(r) && ref in r.versionRefs))
  {
    var more, n := items + [r], |items|;
    assert forall i :: 0 <= i < n ==> (StartsAt(more, i, ref) <==> StartsAt(items, i, ref));
    assert forall i :: 0 <= i < n ==> (FinishesAt(more, i, ref) <==> FinishesAt(items, i, ref));
    assert StartsAt(more, n, ref) <==> Starts(r) && ref in r.versionRefs;
    assert FinishesAt(more, n, ref) <==> Finishes(r) && ref in r.versionRefs;
    if StartedThenFinished(items, ref) {
      var i, j :| StartsAt(items, i, ref) && FinishesAt(items, j, ref) && i < j;
      assert StartsAt(more, i, ref) && FinishesAt(more, j, ref);
    }
    if Started(items, ref) && FinishesAt(more, n, ref) {
      var i :| StartsAt(items, i, ref);
      assert StartsAt(more, i, ref);
    }
  }

  /** The version loop of one more listed release, on top of the pass so far. */
  lemma VersionOneMore(ref: VersionRef, v: C.ConfigVersion, items: seq<Release>, r: Release, now: int)
    ensures var w := TickedVersion(ref, v, items, now);
            TickedVersion(ref, v, items + [r], now)
            == if ref !in r.versionRefs then w
               else if Starts(r) then Rolled(w, C.Scheduled, C.RollingOut, now)
               else if Finishes(r) then Rolled(w, C.RollingOut, C.Published, now)
               else w
  {
    ListedOneMore(items, r, ref);
    assert StartedThenFinished(items, ref) ==> Started(items, ref) && Finished(items, ref);
  }

  /** The version loop of one release extends the pass by that release. */
  lemma RollingExtendsTick(
    start: Versions, vs: Versions, after: Versions, items: seq<Release>, r: Release,
    from: C.VersionState, to: C.VersionState, now: int)
    requires VersionsTicked(start, vs, items, now) && RolledOver(vs, after, r.versionRefs, from, to, now)
    requires (Starts(r) && from == C.Scheduled && to == C.RollingOut)
             || (Finishes(r) && from == C.RollingOut && to == C.Published)
    ensures VersionsTicked(start, after, items + [r], now)
  {
    forall ref | ref in start ensures after[ref] == TickedVersion(ref, start[ref], items + [r], now) {
      VersionOneMore(ref, start[ref], items, r, now);
    }
  }

  /** A release that neither starts nor finishes leaves the versions alone. */
  lemma IdleExtendsTick(start: Versions, vs: Versions, items: seq<Release>, r: Release, now: int)
    requires VersionsTicked(start, vs, items, now) && !Starts(r) && !Finishes(r)
    ensures VersionsTicked(start, vs, items + [r], now)
  {
    forall ref | ref in start ensures vs[ref] == TickedVersion(ref, start[ref], items + [r], now) {
      VersionOneMore(ref, start[ref], items, r, now);
    }
  }

  lemma {:induction false} OneMoreId(items: seq<Release>, r: Release)
    ensures Ids(items + [r]) == Ids(items) + {r.id}
  {
    var more := items + [r];
    forall x ensures x in Ids(more) <==> x in Ids(items) || x == r.id {
      if x in Ids(items) {
        var k :| 0 <= k < |items| && items[k].id == x;
        assert more[k].id == x;
      }
      assert more[|items|].id == r.id;
    }
  }

  /** Advancing one more listed release extends the pass by it. */
  lemma AdvancingExtendsTick(start: Releases, rs: Releases, items: seq<Release>, r: Release, now: int)
    requires ReleasesTicked(start, rs, items, now)
    requires r.id in start && start[r.id] == r && r.id !in Ids(items)
    ensures ReleasesTicked(start, rs[r.id := Advanced(r, now)], items + [r], now)
  {
    OneMoreId(items, r);
  }

  lemma TickOneMore(start: Plane, before: Releases, after: Plane, items: seq<Release>, i: nat, now: int)
    requires i < |items| && ReleasesTicked(start.releases, before, items[..i], now)
    requires var r := items[i]; r.id in start.releases && start.releases[r.id] == r && r.id !in Ids(items[..i])
    requires after.releases == before[items[i].id := Advanced(items[i], now)]
    requires VersionsTicked(start.versions, after.versions, items[..i] + [items[i]], now)
    ensures Ticked(start, after, items[..i + 1], now)
  {
    AdvancingExtendsTick(start.releases, before, items[..i], items[i], now);
    assert items[..i + 1] == items[..i] + [items[i]];
  }

  /**
   The frame of a pass: a version that no starting and no completing listed release references is
   unchanged; only a starting one takes a version out of `Scheduled`, only a completing one publishes.
   */
  lemma PassMovesOnlyReferenced(s: Plane, t: Plane, items: seq<Release>, ref: VersionRef, now: int)
    requires Ticked(s, t, items, now) && ref in s.versions
    ensures ref in t.versions && C.SameContent(s.versions[ref], t.versions[ref])
    ensures !Started(items, ref) && !Finished(items, ref) ==> t.versions[ref] == s.versions[ref]
    ensures s.versions[ref].state == C.Scheduled ==> (t.versions[ref].state != C.Scheduled <==> Started(items, ref))
    ensures s.versions[ref].state == C.RollingOut ==> (t.versions[ref].state == C.Published <==> Finished(items, ref))
    ensures s.versions[ref].state !in {C.Scheduled, C.RollingOut} ==> t.versions[ref] == s.versions[ref]
    ensures Onward(s.versions[ref].state, t.versions[ref].state)
  {
    assert StartedThenFinished(items, ref) ==> Started(items, ref) && Finished(items, ref);
  }

  /** The only way passes move a version: scheduled, rolling out, published. */
  predicate Onward(a: C.VersionState, b: C.VersionState) {
    || a == b
    || (a == C.Scheduled && b in {C.RollingOut, C.Published})
    || (a == C.RollingOut && b == C.Published)
  }

  // --------------------------------------------------------- what is listed

  /** What one pass lists: the first page of 200 of some oldest-first arrangement. */
  ghost predicate Listed(releases: Releases, page: seq<Release>) {
    exists all :: OldestFirst(releases, all) && page == Page(all, 1, 200)
  }

  /** The releases strictly older than this one. */
  ghost function Older(releases: Releases, id: string): set<string>
    requires id in releases
  {
    set x | x in releases && releases[x].createdAt < releases[id].createdAt
  }

  /** The releases at least as old as this one, itself included. */
  ghost function NotYounger(releases: Releases, id: string): set<string>
    requires id in releases
  {
    set x | x in releases && releases[x].createdAt <= releases[id].createdAt
  }

  /** There is always something to list: the hypotheses about listings are never empty. */
  lemma ListingExists(releases: Releases)
    requires Keyed(releases)
    ensures exists page :: Listed(releases, page)
  {
    var all := ArrangementExists(releases);
    assert Listed(releases, Page(all, 1, 200));
  }

  /** A page shows stored records, each once. */
  lemma PageEntries(releases: Releases, page: seq<Release>)
    requires Listed(releases, page)
    ensures forall i :: 0 <= i < |page| ==> page[i].id in releases && releases[page[i].id] == page[i]
    ensures forall i, j :: 0 <= i < j < |page| ==> page[i].id != page[j].id
  {
    var all :| OldestFirst(releases, all) && page == Page(all, 1, 200);
    assert page == all[..|page|];
  }

  lemma PageEntry(releases: Releases, page: seq<Release>, i: nat)
    requires Listed(releases, page) && i < |page|
    ensures page[i].id in releases && releases[page[i].id] == page[i] && page[i].id !in Ids(page[..i])
  {
    PageEntries(releases, page);
  }

  lemma NothingTicked(p: Plane, now: int)
    ensures Ticked(p, p, [], now)
  {
  }

  /** Where a release stands in an arrangement: behind all older ones, before all younger ones. */
  lemma PositionIsBounded(releases: Releases, all: seq<Release>, p: nat)
    requires OldestFirst(releases, all) && p < |all|
    ensures |Older(releases, all[p].id)| <= p < |NotYounger(releases, all[p].id)|
  {
    OlderComeFirst(releases, all, p);
    IdsAreDistinct(all[..p + 1]);
    assert Ids(all[..p + 1]) <= NotYounger(releases, all[p].id);
    SmallerSubset(Ids(all[..p + 1]), NotYounger(releases, all[p].id));
  }

  lemma OlderComeFirst(releases: Releases, all: seq<Release>, p: nat)
    requires OldestFirst(releases, all) && p < |all|
    ensures |Older(releases, all[p].id)| <= p
  {
    ArrangementIsComplete(releases, all);
    forall x | x in Older(releases, all[p].id) ensures x in Ids(all[..p]) {
      assert x in Ids(all);
      var q :| 0 <= q < |all| && all[q].id == x;
      assert q < p;
      assert all[..p][q].id == x;
    }
    IdsAreDistinct(all[..p]);
    SmallerSubset(Older(releases, all[p].id), Ids(all[..p]));
  }

  lemma SmallerSubset(a: set<string>, b: set<string>)
    requires a <= b
    ensures |a| <= |b|
  {
    assert b == a + (b - a);
  }

  /** The p-th release of an arrangement is on its first page exactly for p < 200. */
  lemma OnFirstPageIff(releases: Releases, all: seq<Release>, p: nat)
    requires OldestFirst(releases, all) && p < |all|
    ensures all[p].id in Ids(Page(all, 1, 200)) <==> p < 200
  {
    var page := Page(all, 1, 200);
    assert page == all[..|page|] && (p < 200 <==> p < |page|);
    assert p < |page| ==> page[p].id == all[p].id;
  }

  lemma PositionExists(releases: Releases, all: seq<Release>, id: string) returns (p: nat)
    requires OldestFirst(releases, all) && id in releases
    ensures p < |all| && all[p].id == id
  {
    ArrangementIsComplete(releases, all);
    assert id in Ids(all);
    p :| 0 <= p < |all| && all[p].id == id;
  }

  /** With at most 200 releases that are not younger, itself included, a release is on every first page. */
  lemma OldReleasesAreListed(releases: Releases, page: seq<Release>, id: string)
    requires id in releases && |NotYounger(releases, id)| <= 200 && Listed(releases, page)
    ensures id in Ids(page)
  {
    var all :| OldestFirst(releases, all) && page == Page(all, 1, 200);
    var p := PositionExists(releases, all, id);
    PositionIsBounded(releases, all, p);
    OnFirstPageIff(releases, all, p);
  }

  /** A release with 200 strictly older ones is on no first page. */
  lemma YoungReleasesAreNotListed(releases: Releases, page: seq<Release>, id: string)
    requires id in releases && |Older(releases, id)| >= 200 && Listed(releases, page)
    ensures id !in Ids(page)
  {
    var all :| OldestFirst(releases, all) && page == Page(all, 1, 200);
    var p := PositionExists(releases, all, id);
    PositionIsBounded(releases, all, p);
    OnFirstPageIff(releases, all, p);
  }

  /** A release is on every possible first page exactly when at most 200 releases are not younger. */
  lemma AlwaysListedIff(releases: Releases, id: string)
    requires Keyed(releases) && id in releases
    ensures (forall page :: Listed(releases, page) ==> id in Ids(page)) <==> |NotYounger(releases, id)| <= 200
  {
    if |NotYounger(releases, id)| <= 200 {
      forall page | Listed(releases, page) ensures id in Ids(page) {
        OldReleasesAreListed(releases, page, id);
      }
    } else {
      var first := NotYounger(releases, id) - {id};
      var all := ArrangementAfter(releases, id, first);
      OnFirstPageIff(releases, all, |first|);
      assert Listed(releases, Page(all, 1, 200));
    }
  }

  /** A release is on some possible first page exactly when fewer than 200 releases are strictly older. */
  lemma SometimesListedIff(releases: Releases, id: string)
    requires Keyed(releases) && id in releases
    ensures (exists page :: Listed(releases, page) && id in Ids(page)) <==> |Older(releases, id)| < 200
  {
    if |Older(releases, id)| < 200 {
      var first := Older(releases, id);
      var all := ArrangementAfter(releases, id, first);
      OnFirstPageIff(releases, all, |first|);
      assert Listed(releases, Page(all, 1, 200));
    } else {
      forall page | Listed(releases, page) ensures id !in Ids(page) {
        YoungReleasesAreNotListed(releases, page, id);
      }
    }
  }

  // ---------------------------------------------------------- many passes

  /** Consecutive passes with nothing in between. */
  ghost predicate Passes(run: seq<Plane>) {
    forall k :: 0 < k < |run| ==> PassAt(run, k)
  }

  ghost predicate PassAt(run: seq<Plane>, k: int) {
    0 < k < |run| ==> Pass(run[k - 1], run[k])
  }

  ghost predicate Pass(s: Plane, t: Plane) {
    exists page, now :: Listed(s.releases, page) && Ticked(s, t, page, now)
  }

  /** The same releases with the same creation times. */
  ghost predicate SameAges(a: Releases, b: Releases) {
    a.Keys == b.Keys && forall id :: id in a ==> a[id].createdAt == b[id].createdAt
  }

  /** Passes never change who is older than whom, nor which versions exist. */
  lemma {:induction false} PassesKeepAges(run: seq<Plane>, k: nat)
    requires Passes(run) && k < |run|
    ensures SameAges(run[0].releases, run[k].releases) && run[k].versions.Keys == run[0].versions.Keys
  {
    if k > 0 {
      PassesKeepAges(run, k - 1);
      assert PassAt(run, k);
    }
  }

  lemma SameAgesSameElders(a: Releases, b: Releases, id: string)
    requires SameAges(a, b) && id in a
    ensures Older(a, id) == Older(b, id) && NotYounger(a, id) == NotYounger(b, id)
  {
  }

  ghost predicate Moved(r: Release, a: C.VersionState, b: C.VersionState) {
    && Onward(a, b)
    && (Starts(r) && a == C.Scheduled ==> b != C.Scheduled)
    && (Finishes(r) && a == C.RollingOut ==> b == C.Published)
  }

  /** What a pass that lists the release does to it and to the versions it references. */
  lemma ListedIsAdvanced(s: Plane, t: Plane, page: seq<Release>, now: int, id: string)
    requires Listed(s.releases, page) && Ticked(s, t, page, now) && id in s.releases && id in Ids(page)
    ensures t.releases.Keys == s.releases.Keys && t.versions.Keys == s.versions.Keys
    ensures t.releases[id] == Advanced(s.releases[id], now)
    ensures forall ref :: ref in s.releases[id].versionRefs && ref in s.versions ==>
              Moved(s.releases[id], s.versions[ref].state, t.versions[ref].state)
  {
    PageEntries(s.releases, page);
    var i :| 0 <= i < |page| && page[i].id == id;
    forall ref | ref in s.releases[id].versionRefs && ref in s.versions
      ensures Moved(s.releases[id], s.versions[ref].state, t.versions[ref].state)
    {
      PassMovesOnlyReferenced(s, t, page, ref, now);
      assert Starts(s.releases[id]) ==> StartsAt(page, i, ref);
      assert Finishes(s.releases[id]) ==> FinishesAt(page, i, ref);
    }
  }

  /** A pass that lists the release. */
  ghost predicate PassOver(s: Plane, t: Plane, id: string) {
    exists page, now :: Listed(s.releases, page) && Ticked(s, t, page, now) && id in Ids(page)
  }

  ghost predicate PassOverAt(run: seq<Plane>, k: int, id: string) {
    0 < k < |run| ==> PassOver(run[k - 1], run[k], id)
  }

  /** Consecutive passes each of which lists the release. */
  ghost predicate PassesOver(run: seq<Plane>, id: string) {
    forall k :: 0 < k < |run| ==> PassOverAt(run, k, id)
  }

  /** A release that at most 200 are as old as is listed by every pass of every run. */
  lemma OldReleasesStayListed(run: seq<Plane>, id: string)
    requires run != [] && Passes(run) && id in run[0].releases && |NotYounger(run[0].releases, id)| <= 200
    ensures PassesOver(run, id)
  {
    forall k | 0 < k < |run| ensures PassOverAt(run, k, id) {
      PassesKeepAges(run, k - 1);
      SameAgesSameElders(run[0].releases, run[k - 1].releases, id);
      assert PassAt(run, k);
      var page, now :| Listed(run[k - 1].releases, page) && Ticked(run[k - 1], run[k], page, now);
      OldReleasesAreListed(run[k - 1].releases, page, id);
    }
  }

  /** One pass of a run, seen by a release that is listed every time. */
  lemma PassOfRun(run: seq<Plane>, id: string, k: nat) returns (now: int)
    requires PassesOver(run, id) && 0 < k < |run| && id in run[k - 1].releases
    ensures id in run[k].releases
    ensures run[k].versions.Keys == run[k - 1].versions.Keys
    ensures run[k].releases[id] == Advanced(run[k - 1].releases[id], now)
    ensures forall ref :: ref in run[k - 1].releases[id].versionRefs && ref in run[k - 1].versions ==>
              Moved(run[k - 1].releases[id], run[k - 1].versions[ref].state, run[k].versions[ref].state)
  {
    assert PassOverAt(run, k, id);
    var page, at :| Listed(run[k - 1].releases, page) && Ticked(run[k - 1], run[k], page, at) && id in Ids(page);
    ListedIsAdvanced(run[k - 1], run[k], page, at, id);
    now := at;
  }

  /** Passes can take the release to success. */
  predicate Awaits(r: Release) {
    Starts(r) || r.state == Running
  }

  /** The passes it takes to start the release. */
  function ToStart(r: Release): nat {
    if Starts(r) then 1 else 0
  }

  /** The pass at which the release is due; a wave past the plan counts as the last. */
  function Due(r: Release): nat {
    ToStart(r) + if r.currentWave < |r.waves| then |r.waves| - r.currentWave else 1
  }

  /** What k passes make of a release that awaited them. */
  ghost predicate OnSchedule(start: Release, r: Release, k: nat) {
    && r.waves == start.waves && r.versionRefs == start.versionRefs
    && (k == 0 ==> r.state == start.state && r.currentWave == start.currentWave)
    && (0 < k < Due(start) ==> r.state == Running && r.currentWave == start.currentWave + k - ToStart(start))
    && (k == Due(start) ==> r.state == Succeeded)
  }

  lemma AdvancedKeepsSchedule(start: Release, r: Release, k: nat, now: int)
    requires Awaits(start) && k < Due(start) && OnSchedule(start, r, k)
    ensures OnSchedule(start, Advanced(r, now), k + 1)
    ensures Starts(r) <==> k < ToStart(start)
    ensures Finishes(r) <==> k + 1 == Due(start)
  {
  }

  /** The release is stored and passes can take it to success. */
  ghost predicate Awaiting(releases: Releases, id: string) {
    id in releases && Awaits(releases[id])
  }

  /** A run of passes that each list a release awaiting them at the start. */
  ghost predicate Scheduled(run: seq<Plane>, id: string) {
    run != [] && PassesOver(run, id) && Awaiting(run[0].releases, id)
  }

  lemma {:induction false} ScheduleHolds(run: seq<Plane>, id: string, k: nat)
    requires Scheduled(run, id) && k < |run| && k <= Due(run[0].releases[id])
    ensures id in run[k].releases && run[k].versions.Keys == run[0].versions.Keys
    ensures OnSchedule(run[0].releases[id], run[k].releases[id], k)
  {
    if k > 0 {
      ScheduleHolds(run, id, k - 1);
      var now := PassOfRun(run, id, k);
      AdvancedKeepsSchedule(run[0].releases[id], run[k - 1].releases[id], k - 1, now);
    }
  }

  /** The states from which a completing release can publish a version it has started. */
  predicate Publishable(a: C.VersionState) {
    a in {C.Scheduled, C.RollingOut, C.Published}
  }

  /**
   How a referenced version follows the release: a publishable one stays so; rolling out, or scheduled
   with the release still to start, it has begun after one pass and is published at the end; others stay.
   */
  predicate Follows(starts: bool, start: C.VersionState, now: C.VersionState, k: nat, last: nat) {
    if !Publishable(start) then now == start
    else
      && Publishable(now)
      && (start != C.Scheduled || (starts && k >= 1) ==> now != C.Scheduled)
      && ((start != C.Scheduled || starts) && k == last ==> now == C.Published)
  }

  lemma {:induction false} ReferencedVersionsFollow(run: seq<Plane>, id: string, ref: VersionRef, k: nat)
    requires Scheduled(run, id) && k < |run| && k <= Due(run[0].releases[id])
    requires ref in run[0].releases[id].versionRefs && ref in run[0].versions
    ensures ref in run[k].versions
    ensures var r := run[0].releases[id];
            Follows(Starts(r), run[0].versions[ref].state, run[k].versions[ref].state, k, Due(r))
  {
    if k > 0 {
      ReferencedVersionsFollow(run, id, ref, k - 1);
      ScheduleHolds(run, id, k - 1);
      var now := PassOfRun(run, id, k);
      AdvancedKeepsSchedule(run[0].releases[id], run[k - 1].releases[id], k - 1, now);
    }
  }

  /** The release is stored throughout and succeeds at the given pass, not before. */
  ghost predicate SucceedsAt(run: seq<Plane>, id: string, last: nat) {
    && last < |run|
    && (forall k :: 0 <= k <= last ==>
                      id in run[k].releases && (run[k].releases[id].state == Succeeded <==> k == last))
  }

  /**
   Of the given versions those outside the rollout stay as they were, those rolling out are published
   and, if the release was still to start, so are the scheduled ones: then exactly the publishable ones.
   */
  ghost predicate Publishes(before: Versions, after: Versions, refs: seq<VersionRef>, starts: bool) {
    forall ref :: ref in refs && ref in before ==>
                    ref in after && Follows(starts, before[ref].state, after[ref].state, 1, 1)
  }

  /** With a release that was still to start, publication is decided by the state the version started in. */
  lemma PublishedIffPublishable(before: Versions, after: Versions, refs: seq<VersionRef>, ref: VersionRef)
    requires Publishes(before, after, refs, true) && ref in refs && ref in before
    ensures ref in after && (after[ref].state == C.Published <==> Publishable(before[ref].state))
  {
  }

  /** What passes make of a release they list, and of the versions it references. */
  lemma ListedReleaseSucceedsOnTime(run: seq<Plane>, id: string, last: nat)
    requires Scheduled(run, id) && last == Due(run[0].releases[id]) && last < |run|
    ensures SucceedsAt(run, id, last)
    ensures var r := run[0].releases[id]; Publishes(run[0].versions, run[last].versions, r.versionRefs, Starts(r))
  {
    forall k | 0 <= k <= last
      ensures id in run[k].releases && (run[k].releases[id].state == Succeeded <==> k == last)
    {
      ScheduleHolds(run, id, k);
    }
    var r := run[0].releases[id];
    forall ref | ref in r.versionRefs && ref in run[0].versions
      ensures ref in run[last].versions
              && Follows(Starts(r), run[0].versions[ref].state, run[last].versions[ref].state, 1, 1)
    {
      ReferencedVersionsFollow(run, id, ref, last);
    }
  }

  /**
   With only scheduler passes, a release that at most 200 releases are as old as succeeds: pending or
   retrying in wave c of w at pass w-c+1, running at pass w-c, past its plan one pass after it runs,
   and at no earlier one. The versions it references, shared or not, follow as `Publishes` says.
   */
  lemma ReleaseSucceedsOnTime(run: seq<Plane>, id: string, last: nat)
    requires run != [] && Passes(run) && Awaiting(run[0].releases, id) && |NotYounger(run[0].releases, id)| <= 200
    requires last == Due(run[0].releases[id]) && last < |run|
    ensures SucceedsAt(run, id, last)
    ensures var r := run[0].releases[id]; Publishes(run[0].versions, run[last].versions, r.versionRefs, Starts(r))
  {
    OldReleasesStayListed(run, id);
    ListedReleaseSucceedsOnTime(run, id, last);
  }

  /** The bound of 200 is real: scheduler passes never move a release that 200 older ones precede. */
  lemma {:induction false} YoungReleasesAreNeverAdvanced(run: seq<Plane>, id: string, k: nat)
    requires Passes(run) && k < |run| && id in run[0].releases && |Older(run[0].releases, id)| >= 200
    ensures id in run[k].releases && run[k].releases[id] == run[0].releases[id]
  {
    if k > 0 {
      YoungReleasesAreNeverAdvanced(run, id, k - 1);
      PassesKeepAges(run, k - 1);
      SameAgesSameElders(run[0].releases, run[k - 1].releases, id);
      assert PassAt(run, k);
      var page, now :| Listed(run[k - 1].releases, page) && Ticked(run[k - 1], run[k], page, now);
      YoungReleasesAreNotListed(run[k - 1].releases, page, id);
    }
  }
}
