/** Runs from the empty store to a world with one configuration, one scheduled version and one release. */
module Witness {
  import opened Common
  import opened ReleaseDomain
  import opened ReleaseRepository
  import opened ConfigRepository
  import opened Drafting
  import opened Protocol
  import opened Undisturbed
  import C = ConfigDomain

  /** An operation that nobody interrupts, in a world where nobody else is in flight. */
  lemma RunQuietly(actions: seq<Action>, s: Shared, p: Proc, at: int, t: Shared) returns (after: seq<Action>)
    requires Exec(actions) == World(s, map[]) && Entry(p) && Leads(s, p, at, [], Turn(t, None))
    ensures actions <= after && Exec(after) == World(t, map[])
  {
    var more := Begin(actions, 0, p, at, [], Turn(t, None));
    after := actions + more;
    assert Exec(actions).procs - {0} == map[];
  }

  /** What the witness is built from: a valid configuration, a plain draft and a one-reference release. */
  ghost predicate Plain(c: C.Config, v: C.ConfigVersion, r: Release) {
    && c.Valid()
    && v.configID == c.id && v.state == C.Draft && v.revision == 1 && v.rules == [] && v.dependencies == []
    && ValidRelease(r) && r.state == Pending && r.revision == 1 && r.versionRefs == [VersionRef(c.id, 1)]
  }

  /** The configuration alone in its store. */
  lemma ConfigurationAlone(c: C.Config)
    requires c.Valid()
    ensures var s := Exec([CreateConfiguration(c)]).shared;
            && Exec([CreateConfiguration(c)]).procs == map[]
            && s.store.configs == map[c.id := c] && s.store.versions == map[] && s.repo == Repo(map[], map[])
  {
    assert [CreateConfiguration(c)][..0] == [];
    assert Exec([CreateConfiguration(c)]) == Step(Exec([]), CreateConfiguration(c));
  }

  /** Its first version, drafted. */
  lemma Drafted(s: Shared, c: C.Config, v: C.ConfigVersion, at: int) returns (t: Shared)
    requires s.store.configs == map[c.id := c] && s.store.versions == map[] && v.configID == c.id
    requires v.rules == [] && v.dependencies == []
    ensures Leads(s, Numbering(v, true, DependencyCheck()), at, [], Turn(t, None))
    ensures t == s.(store := s.store.(versions := map[VersionRef(c.id, 1) := v.(number := 1)]))
  {
    var n;
    t, n := CreateVersionLeads(s, v, true, at, []);
    assert n > 1 ==> VersionRef(c.id, 1) in s.store.versions;
    DependencyCheckIsSelfCheck(s.store, c.id, v.(number := 1));
  }

  /** One approval of the only version. */
  lemma Approved(actions: seq<Action>, s: Shared, v: C.ConfigVersion, to: C.VersionState, at: int)
    returns (after: seq<Action>, t: Shared)
    requires Exec(actions) == World(s, map[]) && s.store.versions == map[v.Ref() := v]
    requires C.VersionAdmits(v.state, to) && to != C.Published
    ensures Exec(after) == World(t, map[]) && t.repo == s.repo
    ensures t.store.versions == map[v.Ref() := v.(state := to, updatedAt := at, revision := v.revision + 1)]
  {
    ReachableIsKeyed(actions);
    t := VersionTransitionLeads(s, v.Ref(), to, v.revision, at, []);
    after := RunQuietly(actions, s, GettingVersion(v.Ref(), to, v.revision, VersionReturn), at, t);
  }

  /** The release that carries it. */
  lemma Released(actions: seq<Action>, s: Shared, r: Release, ref: VersionRef, at: int)
    returns (after: seq<Action>, t: Shared)
    requires Exec(actions) == World(s, map[]) && s.repo == Repo(map[], map[])
    requires ref in s.store.versions && s.store.versions[ref].state == C.Scheduled
    requires ValidRelease(r) && r.state == Pending && r.revision == 1 && r.versionRefs == [ref]
    ensures Exec(after) == World(t, map[]) && t.store == s.store && t.repo.releases == map[r.id := r]
  {
    t := CreateReleaseLeads(s, r, r.versionRefs, at, []);
    after := RunQuietly(actions, s, CreatingRelease(r, r.versionRefs), at, t);
  }

  /** Every plain configuration, draft and release can be the only ones stored, with nobody in flight. */
  lemma OneReleaseIsReachable(c: C.Config, v: C.ConfigVersion, r: Release, at: int) returns (actions: seq<Action>)
    requires Plain(c, v, r)
    ensures Exec(actions).procs == map[] && Exec(actions).shared.repo.releases == map[r.id := r]
    ensures VersionRef(c.id, 1) in Exec(actions).shared.store.versions
    ensures Exec(actions).shared.store.versions[VersionRef(c.id, 1)].state == C.Scheduled
  {
    var a0 := [CreateConfiguration(c)];
    ConfigurationAlone(c);
    var s0 := Exec(a0).shared;
    var s1 := Drafted(s0, c, v, at);
    var a1 := RunQuietly(a0, s0, Numbering(v, true, DependencyCheck()), at, s1);
    var draft := v.(number := 1);
    var a2, s2 := Approved(a1, s1, draft, C.Reviewing, at);
    var a3, s3 := Approved(a2, s2, draft.(state := C.Reviewing, updatedAt := at, revision := 2), C.Scheduled, at);
    var a4, s4 := Released(a3, s3, r, VersionRef(c.id, 1), at);
    actions := a4;
  }
}
