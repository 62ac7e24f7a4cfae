/** The application service run by one caller at a time (internal/application/service.go). */
module Service {
  import opened Common
  import opened ReleaseDomain
  import opened ReleaseRepository
  import opened ConfigRepository
  import opened Drafting
  import opened Scheduling
  import C = ConfigDomain
  import Evaluation
  import Graph
  import Protocol
  import Targeting
  import Text
  import Witness

  /** What a caller asks of a new version. */
  datatype Draft = Draft(
    value: C.ConfigValue, rules: seq<C.TargetRule>, dependencies: seq<C.Dependency>, expiresAt: Option<int>)

  /** The version stored for a draft. */
  function VersionOf(id: string, number: int, actor: string, d: Draft, now: int): C.ConfigVersion {
    C.ConfigVersion(id, number, C.Draft, d.value, Targeting.SortRules(d.rules), d.dependencies, d.expiresAt,
                    actor, now, now, 1, 0)
  }

  /** The version holds what the draft and its author gave, and is new. */
  ghost predicate MadeFrom(v: C.ConfigVersion, id: string, number: int, actor: string, d: Draft, now: int) {
    && v.configID == id && v.number == number && v.createdBy == actor
    && v.value == d.value && v.dependencies == d.dependencies && v.expiresAt == d.expiresAt
    && Targeting.StablySorted(d.rules, v.rules)
    && v.state == C.Draft && v.revision == 1 && v.rollbackOf == 0 && v.createdAt == now && v.updatedAt == now
  }

  datatype Advice = Continue | PauseAndInvestigate | NoActionNotRunning

  /** The health of a release as reported to an operator. */
  datatype Assessment = Assessment(
    state: State, currentWave: int, failureRate: real, allowedRate: real, shouldPause: bool, advice: Advice)

  /**
   What an operator is told: an invalid gate, an unknown release and a negative wave are errors; a wave
   past the plan allows no failures and is never over its limit.
   */
  function AssessmentOf(releases: map<string, Release>, id: string, gate: HealthGate): Result<Assessment> {
    if gate.samples < 1 || !(0 <= gate.failures <= gate.samples) then Err(BadRequest)
    else if id !in releases then Err(NotFound)
    else
      var r := releases[id];
      var rate := gate.failures as real / gate.samples as real;
      if r.currentWave < 0 then Err(Fault)
      else
        var over := r.currentWave < |r.waves| && rate > r.waves[r.currentWave].maxFailureRate;
        Ok(Assessment(
             r.state, r.currentWave, rate,
             if r.currentWave < |r.waves| then r.waves[r.currentWave].maxFailureRate else 0.0,
             Failing(r, gate),
             if over then PauseAndInvestigate else if r.state != Running then NoActionNotRunning else Continue))
  }

  class Service {
    const configs: Memory
    const releases: MemoryRepository

    ghost predicate Valid()
      reads configs, releases
    {
      configs.Sound() && releases.Valid()
    }

    constructor (configs: Memory, releases: MemoryRepository)
      ensures this.configs == configs && this.releases == releases
    {
      this.configs, this.releases := configs, releases;
    }

    /** Adds the nodes of the stored versions and of the new one. */
    method BuildGraph(nodes: seq<C.ConfigVersion>) returns (g: Graph.Edges<string>)
      ensures g == Graph.VersionGraph(nodes)
    {
      g := map[];
      for i := 0 to |nodes|
        invariant g == Graph.VersionGraph(nodes[..i])
      {
        g := Graph.Add(g, Graph.VersionNode(nodes[i]), nodes[i].dependencies);
        assert nodes[..i + 1][..i] == nodes[..i];
      }
      assert nodes[..|nodes|] == nodes;
    }

    method ChecksItself(c: C.Config, v: C.ConfigVersion) returns (found: bool)
      ensures found <==> DependsOnItself(c, v)
    {
      for i := 0 to |v.dependencies|
        invariant forall k :: 0 <= k < i ==> !(v.dependencies[k].required && v.dependencies[k].key == c.key)
      {
        if v.dependencies[i].required && v.dependencies[i].key == c.key {
          return true;
        }
      }
      return false;
    }

    /** The cycle test over version nodes, then the self-reference test. */
    method ValidateDependencies(c: C.Config, id: string, v: C.ConfigVersion) returns (err: Option<Error>)
      requires configs.Valid()
      ensures err == if ClosesCycle(configs.State(), id, v) || DependsOnItself(c, v) then Some(BadRequest) else None
    {
      var versions := configs.ListVersions(id);
      var g := BuildGraph(versions + [v]);
      var cyclic := Graph.HasCycle(g);
      TheListingDecides(configs.State(), id, v, versions);
      if cyclic {
        return Some(BadRequest);
      }
      var itself := ChecksItself(c, v);
      return if itself then Some(BadRequest) else None;
    }

    /** The numbering loop over a listing. */
    method NumberAfter(id: string, versions: seq<C.ConfigVersion>) returns (number: int)
      requires Numbered(configs.State()) && ListsVersions(configs.versions, id, {}, versions)
      ensures number == NextNumber(configs.versions.Keys, id)
    {
      number := 1;
      for i := 0 to |versions|
        invariant number >= 1 && forall k :: 0 <= k < i ==> versions[k].number < number
        invariant number > 1 ==> exists k :: 0 <= k < i && versions[k].number == number - 1
      {
        if versions[i].number >= number {
          number := versions[i].number + 1;
        }
      }
      ListingFollowed(configs.State(), id, versions, number);
    }

    method CheckRules(rules: seq<C.TargetRule>) returns (ok: bool)
      ensures ok <==> forall i :: 0 <= i < |rules| ==> C.ValidRule(rules[i])
    {
      for i := 0 to |rules|
        invariant forall k :: 0 <= k < i ==> C.ValidRule(rules[k])
      {
        if !C.ValidRule(rules[i]) {
          return false;
        }
      }
      return true;
    }

    /** The version a draft becomes, or the first check it fails; nothing is stored yet. */
    method PrepareVersion(actor: string, id: string, d: Draft, valueOk: bool, now: int)
      returns (r: Result<C.ConfigVersion>)
      requires configs.Sound()
      ensures r.Ok? <==> DraftAccepted(configs.State(), id, d.rules, d.dependencies, valueOk)
      ensures r.Ok? ==> MadeFrom(r.value, id, NextNumber(configs.versions.Keys, id), actor, d, now)
      ensures r.Err? ==> r.error == DraftRefusal(configs.State(), id, d.rules, valueOk)
    {
      ghost var n := NextNumber(configs.versions.Keys, id);
      Targeting.SortRulesIsStable(d.rules);
      AcceptableIffDraftAccepted(
        configs.State(), id, VersionOf(id, n, actor, d, now), d.rules, d.dependencies, valueOk);
      var found := configs.Get(id);
      if found.Err? {
        return Err(NotFound);
      }
      if !valueOk {
        return Err(InvalidValue);
      }
      var versions := configs.ListVersions(id);
      var number := NumberAfter(id, versions);
      var v := VersionOf(id, number, actor, d, now);
      var rulesOk := CheckRules(v.rules);
      if !rulesOk {
        return Err(InvalidValue);
      }
      var err := ValidateDependencies(found.value, id, v);
      return match err case Some(e) => Err(e) case None => Ok(v);
    }

    /** Numbers the draft after every stored version and inserts it; `valueOk` says whether the value passed. */
    method CreateVersion(actor: string, id: string, d: Draft, valueOk: bool, now: int)
      returns (r: Result<C.ConfigVersion>)
      requires configs.Sound()
      modifies configs
      ensures configs.Sound()
      ensures r.Ok? <==> DraftAccepted(old(configs.State()), id, d.rules, d.dependencies, valueOk)
      ensures r.Ok? ==> MadeFrom(r.value, id, NextNumber(old(configs.versions.Keys), id), actor, d, now)
      ensures r.Ok? ==> r.value.Ref() !in old(configs.versions)
      ensures r.Err? ==> r.error == DraftRefusal(old(configs.State()), id, d.rules, valueOk)
      ensures configs.State()
              == old(configs.State()).(
                   versions := if r.Ok? then old(configs.versions)[r.value.Ref() := r.value] else old(configs.versions))
    {
      r := PrepareVersion(actor, id, d, valueOk, now);
      if r.Ok? {
        FreshNumber(configs.State(), id);
        var err := configs.PutVersion(r.value);
        r := match err case Some(e) => Err(e) case None => r;
      }
    }

    method TransitionVersion(id: string, num: int, to: C.VersionState, expected: int, now: int)
      returns (r: Result<C.ConfigVersion>)
      requires Valid()
      modifies configs
      ensures Valid()
      ensures var ref := VersionRef(id, num);
              && (r.Ok? <==> ref in old(configs.versions) && old(configs.versions[ref]).revision == expected
                             && C.VersionAdmits(old(configs.versions[ref]).state, to))
              && (r.Ok? ==> r.value
                            == old(configs.versions[ref]).(state := to, updatedAt := now, revision := expected + 1))
              && (r.Err? ==> r.error == if ref !in old(configs.versions) then NotFound
                                        else if old(configs.versions[ref]).revision != expected then Precondition
                                        else BadTransition)
      ensures configs.versions
              == if r.Ok? then old(configs.versions)[VersionRef(id, num) := r.value] else old(configs.versions)
      ensures configs.configs == old(configs.configs) && configs.configKeys == old(configs.configKeys)
    {
      var c := configs.Get(id);
      if c.Err? {
        return Err(NotFound);
      }
      var v := configs.GetVersion(id, num);
      if v.Err? {
        return v;
      }
      if expected != v.value.revision {
        return Err(Precondition);
      }
      C.VersionCanIffAdmitted(v.value, to);
      r := v.value.Transition(to, now);
      if r.Err? {
        return;
      }
      var err := configs.UpdateVersion(r.value, v.value.revision);
      r := match err case Some(e) => Err(e) case None => r;
    }

    method TransitionRelease(id: string, to: State, reason: string, token: int, now: int) returns (r: Result<Release>)
      requires Valid()
      modifies releases
      ensures Valid() && releases.idempotency == old(releases.idempotency)
      ensures r.Ok? <==> id in old(releases.releases) && old(releases.releases[id]).fencingToken < token
                         && Admits(old(releases.releases[id]).state, to)
      ensures r.Ok? ==> Carries(old(releases.releases[id]), r.value, to, reason, token, now)
      ensures r.Ok? && to == Paused ==> r.value.pausedReason == reason
      ensures r.Ok? && to != Paused ==> r.value.pausedReason == old(releases.releases[id]).pausedReason
      ensures r.Ok? && to == RolledBack ==> r.value.rollbackReason == reason
      ensures r.Ok? && to != RolledBack ==> r.value.rollbackReason == old(releases.releases[id]).rollbackReason
      ensures r.Err? ==> r.error == if id in old(releases.releases) then BadTransition else NotFound
      ensures releases.releases == if r.Ok? then old(releases.releases)[id := r.value] else old(releases.releases)
    {
      r := releases.Get(id);
      if r.Err? {
        return;
      }
      var read := r.value;
      CanIffAdmitted(read, to);
      r := read.Transition(to, token, now);
      if r.Err? {
        return;
      }
      r := Ok(WithReason(r.value, to, reason));
      var err := releases.Update(r.value, read.revision);
      r := match err case Some(e) => Err(e) case None => r;
    }

    /** Only a failed release is retried, under the next token. */
    method RetryRelease(id: string, now: int) returns (r: Result<Release>)
      requires Valid()
      modifies releases
      ensures Valid() && releases.idempotency == old(releases.idempotency)
      ensures r.Ok? <==> id in old(releases.releases) && old(releases.releases[id]).state == Failed
      ensures var read := old(releases.releases);
              r.Ok? ==> Carries(read[id], r.value, Retrying, "", read[id].fencingToken + 1, now)
      ensures r.Err? ==> r.error == if id in old(releases.releases) then Precondition else NotFound
      ensures releases.releases == if r.Ok? then old(releases.releases)[id := r.value] else old(releases.releases)
    {
      r := releases.Get(id);
      if r.Err? {
        return;
      }
      var read := r.value;
      if read.state != Failed {
        return Err(Precondition);
      }
      r := read.Transition(Retrying, read.fencingToken + 1, now);
      if r.Err? {
        return;
      }
      var err := releases.Update(r.value, read.revision);
      r := match err case Some(e) => Err(e) case None => r;
    }

    /** The reference loop: the first reference that is missing or not releasable decides. */
    method CheckReferences(refs: seq<VersionRef>) returns (err: Option<Error>)
      ensures err == FirstRefusal(configs.versions, refs)
    {
      for i := 0 to |refs|
        invariant FirstRefusal(configs.versions, refs) == FirstRefusal(configs.versions, refs[i..])
      {
        var v := configs.GetVersion(refs[i].configID, refs[i].version);
        match v
        case Err(e) => return Some(e);
        case Ok(found) =>
          if found.state != C.Scheduled && found.state != C.Reviewing {
            return Some(Precondition);
          }
      }
      return None;
    }

    /**
     Stores a validated draft as pending under a new id. The wave and the token are the caller's, so a
     release can start in any wave.
     */
    method CreateRelease(draft: Release, id: string, now: int) returns (r: Result<Release>)
      requires Valid()
      modifies releases
      ensures Valid()
      ensures r.Ok? <==> && ValidRelease(draft) && Releasable(configs.versions, draft.versionRefs)
                         && Unused(old(releases.State()), id, draft.idempotencyKey)
      ensures r.Ok? ==> && r.value.id == id && r.value.state == Pending && r.value.revision == 1
                        && r.value
                           == draft.(id := id, state := Pending, createdAt := now, updatedAt := now, revision := 1)
      ensures r.Err? ==> r.error == if !ValidRelease(draft) then BadRequest
                                    else match FirstRefusal(configs.versions, draft.versionRefs)
                                      case Some(e) => e
                                      case None => Conflict
      ensures releases.releases == if r.Ok? then old(releases.releases)[id := r.value] else old(releases.releases)
      ensures releases.idempotency
              == if r.Ok? then WithKey(old(releases.idempotency), draft.idempotencyKey, id)
                 else old(releases.idempotency)
    {
      var ok := Validate(draft);
      if !ok {
        return Err(BadRequest);
      }
      var rel := draft.(id := id, state := Pending, createdAt := now, updatedAt := now, revision := 1);
      var missing := CheckReferences(rel.versionRefs);
      NoRefusalIffReleasable(configs.versions, rel.versionRefs);
      match missing
      case Some(e) => return Err(e);
      case None =>
      var err := releases.Create(rel);
      r := match err case Some(e) => Err(e) case None => Ok(rel);
    }

    /** Whether the release should be paused; a negative wave makes the source index out of range. */
    method AssessReleaseHealth(id: string, gate: HealthGate) returns (r: Result<Assessment>)
      ensures r == AssessmentOf(releases.releases, id, gate)
    {
      if gate.samples < 1 || gate.failures < 0 || gate.failures > gate.samples {
        return Err(BadRequest);
      }
      var found := releases.Get(id);
      match found
      case Err(e) => return Err(e);
      case Ok(rel) =>
      var allowed := 0.0;
      if 0 <= rel.currentWave < |rel.waves| {
        allowed := rel.waves[rel.currentWave].maxFailureRate;
      }
      match rel.ShouldPause(gate)
      case None => return Err(Fault);
      case Some(pause) =>
        var advice := Continue;
        if pause {
          advice := PauseAndInvestigate;
        } else if rel.state != Running {
          advice := NoActionNotRunning;
        }
        return Ok(Assessment(
                    rel.state, rel.currentWave, FailureRate(gate), allowed, pause && rel.state == Running, advice));
    }

    /** Pauses the release exactly when it is running and failing and the token is fresh. */
    method ApplyHealthGate(id: string, gate: HealthGate, token: int, reason: string, now: int)
      returns (r: Result<(Assessment, Release)>)
      requires Valid()
      modifies releases
      ensures Valid() && releases.idempotency == old(releases.idempotency)
      ensures var was := old(releases.releases);
              var assessed := AssessmentOf(was, id, gate);
              && (assessed.Err? ==> r == Err(assessed.error) && releases.releases == was)
              && (assessed.Ok? && !Failing(was[id], gate) ==>
                    r == Ok((assessed.value, was[id])) && releases.releases == was)
              && (assessed.Ok? && Failing(was[id], gate) && token <= was[id].fencingToken ==>
                    r == Err(BadTransition) && releases.releases == was)
              && (assessed.Ok? && Failing(was[id], gate) && token > was[id].fencingToken ==>
                    && r.Ok? && r.value.0 == assessed.value && Carries(was[id], r.value.1, Paused, reason, token, now)
                    && releases.releases == was[id := r.value.1])
    {
      var assessed := AssessReleaseHealth(id, gate);
      var read := releases.Get(id);
      match assessed
      case Err(e) => return Err(e);
      case Ok(a) =>
      if !a.shouldPause {
        return match read case Err(e) => Err(e) case Ok(rel) => Ok((a, rel));
      }
      var next := TransitionRelease(id, Paused, reason, token, now);
      return match next case Err(e) => Err(e) case Ok(rel) => Ok((a, rel));
    }

    /** Serves the highest published versions the subject's rules select, listed by key and tagged. */
    method Evaluate(
      scope: C.Scope, subject: Targeting.Subject, knownETag: string, clock: Evaluation.Clock,
      hash: Targeting.Hash, sign: Evaluation.Sign)
      returns (r: Result<Evaluation.Response>, ghost rows: seq<Evaluation.Row>)
      requires configs.Sound()
      ensures r.Ok? <==> scope.Valid() && (subject.tenantID == "" || subject.tenantID == scope.tenantID)
      ensures r.Err? ==> r.error == if scope.Valid() then Forbidden else InvalidValue
      ensures r.Ok? ==> Evaluation.ServedRows(configs.State(), scope, subject, clock, hash, rows)
      ensures r.Ok? ==> Evaluation.Answers(rows, sign, r.value)
      ensures r.Ok? ==> Evaluation.Itemized(configs.State(), scope, subject, clock, hash, sign, rows, r.value.configs)
      ensures r.Ok? ==> (r.value.notModified <==> knownETag != "" && knownETag == r.value.etag)
    {
      rows := [];
      if !scope.Valid() {
        return Err(InvalidValue), rows;
      }
      if subject.tenantID != "" && subject.tenantID != scope.tenantID {
        return Err(Forbidden), rows;
      }
      var versions := configs.Published(scope);
      Evaluation.ServeIsServedRows(configs.State(), scope, versions, subject, clock, hash);
      var items, seed;
      items, seed := Collect(scope, versions, subject, clock, hash, sign);
      rows := Evaluation.Serve(configs.State(), versions, subject, clock, hash);
      var etag := "\\\"" + sign(seed) + "\\\"";
      var known := knownETag != "" && knownETag == etag;
      var out := Evaluation.Response(Text.SortBy(items, Evaluation.ItemKey), etag, known);
      Evaluation.SortedItemsAnswer(configs.State(), scope, subject, clock, hash, rows, items, sign, out);
      return Ok(out), rows;
    }

    /** The evaluation loop: skips expired and unselected versions, builds the items and the seed. */
    method Collect(
      scope: C.Scope, versions: seq<C.ConfigVersion>, subject: Targeting.Subject, clock: Evaluation.Clock,
      hash: Targeting.Hash, sign: Evaluation.Sign)
      returns (items: seq<Evaluation.EvaluatedConfig>, seed: string)
      requires forall i :: 0 <= i < |versions| ==>
                 && versions[i].configID in configs.configs && configs.configs[versions[i].configID].scope == scope
                 && versions[i].Ref() in configs.versions && configs.versions[versions[i].Ref()] == versions[i]
      ensures var rows := Evaluation.Serve(configs.State(), versions, subject, clock, hash);
              && seed == Evaluation.Seed(rows)
              && Evaluation.ItemsFor(configs.State(), scope, subject, clock, hash, sign, rows, items)
    {
      items, seed := [], "";
      ghost var rows: seq<Evaluation.Row> := [];
      ghost var st := configs.State();
      for i := 0 to |versions|
        invariant rows == Evaluation.Serve(st, versions[..i], subject, clock, hash)
        invariant seed == Evaluation.Seed(rows)
        invariant Evaluation.ItemsFor(st, scope, subject, clock, hash, sign, rows, items)
      {
        assert versions[..i + 1][..i] == versions[..i];
        var item := ServeOne(scope, versions[i], subject, clock, hash, sign);
        match item
        case None =>
          continue;
        case Some(c) =>
          ghost var row := Evaluation.RowFor(st, versions[i]);
          Evaluation.SeedAppend(rows, row);
          Evaluation.ItemsOneMore(st, scope, subject, clock, hash, sign, rows, items, row, c);
          items, rows := items + [c], rows + [row];
          seed := seed + (c.key + ":" + Text.Integer(c.version) + ";");
      }
      assert versions[..|versions|] == versions;
    }

    /** The loop body: the item a version is answered with, if it is served. */
    method ServeOne(
      scope: C.Scope, v: C.ConfigVersion, subject: Targeting.Subject, clock: Evaluation.Clock,
      hash: Targeting.Hash, sign: Evaluation.Sign)
      returns (item: Option<Evaluation.EvaluatedConfig>)
      requires v.configID in configs.configs && configs.configs[v.configID].scope == scope
      requires v.Ref() in configs.versions && configs.versions[v.Ref()] == v
      ensures item.Some? <==> Evaluation.Served(v, subject, clock, hash)
      ensures item.Some? ==>
                Evaluation.ItemFor(configs.State(), scope, subject, clock, hash, sign,
                                   Evaluation.RowFor(configs.State(), v), item.value)
    {
      if v.expiresAt.Some? && clock(v.configID).expiry >= v.expiresAt.value {
        return None;
      }
      var e := Targeting.Evaluate(v.rules, subject, clock(v.configID).rules, hash);
      if |v.rules| > 0 && !e.matched {
        return None;
      }
      var c := configs.configs[v.configID];
      var proof := sign(c.scope.Key() + "/" + c.key + "/" + Text.Integer(v.number));
      return Some(Evaluation.EvaluatedConfig(c.key, v.value, v.number, e, proof));
    }

    /** The scheduler's loop over the references of a release it has just moved. */
    method RollVersions(refs: seq<VersionRef>, from: C.VersionState, to: C.VersionState, now: int)
      requires Valid()
      requires (from == C.Scheduled && to == C.RollingOut) || (from == C.RollingOut && to == C.Published)
      modifies configs
      ensures Valid()
      ensures RolledOver(old(configs.versions), configs.versions, refs, from, to, now)
      ensures configs.configs == old(configs.configs) && configs.configKeys == old(configs.configKeys)
    {
      for i := 0 to |refs|
        invariant Valid()
        invariant RolledOver(old(configs.versions), configs.versions, refs[..i], from, to, now)
        invariant configs.configs == old(configs.configs) && configs.configKeys == old(configs.configKeys)
      {
        ghost var before := configs.versions;
        RollRef(refs[i], from, to, now);
        RollOne(old(configs.versions), before, configs.versions, refs, i, from, to, now);
      }
      assert refs[..|refs|] == refs;
    }

    /** The loop body: moves the version if it is in the state the loop looks for. */
    method RollRef(ref: VersionRef, from: C.VersionState, to: C.VersionState, now: int)
      requires Valid()
      requires (from == C.Scheduled && to == C.RollingOut) || (from == C.RollingOut && to == C.Published)
      modifies configs
      ensures Valid() && configs.configs == old(configs.configs) && configs.configKeys == old(configs.configKeys)
      ensures configs.versions
              == if ref in old(configs.versions)
                 then old(configs.versions)[ref := Rolled(old(configs.versions[ref]), from, to, now)]
                 else old(configs.versions)
    {
      ghost var before := configs.versions;
      assert VersionRef(ref.configID, ref.version) == ref;
      var v := configs.GetVersion(ref.configID, ref.version);
      if v.Ok? && v.value.state == from {
        Promote(ref, v.value, to, now);
      } else if ref in before {
        assert before[ref := Rolled(before[ref], from, to, now)] == before;
      }
    }

    /** The transition of a version the loop has just read. */
    method Promote(ref: VersionRef, v: C.ConfigVersion, to: C.VersionState, now: int)
      requires Valid() && ref in configs.versions && configs.versions[ref] == v && C.VersionAdmits(v.state, to)
      modifies configs
      ensures Valid() && configs.configs == old(configs.configs) && configs.configKeys == old(configs.configKeys)
      ensures configs.versions == old(configs.versions)[ref := Rolled(v, v.state, to, now)]
    {
      var moved := TransitionVersion(ref.configID, ref.version, to, v.revision, now);
    }

    /** One pass over the oldest 200 releases; `page` is what it listed. */
    method AdvanceReleases(now: int) returns (ghost page: seq<Release>)
      requires Valid()
      modifies releases, configs
      ensures Valid() && Listed(old(releases.releases), page)
      ensures Ticked(Plane(old(releases.releases), old(configs.versions)), Plane(releases.releases, configs.versions),
                     page, now)
    {
      ghost var start := Plane(releases.releases, configs.versions);
      var items := ListOldest();
      page := items;
      NothingTicked(start, now);
      for i := 0 to |items|
        invariant Passed(start, items, i, now)
      {
        AdvanceOne(items, i, start, now);
      }
      assert items[..|items|] == items;
    }

    /** The pass over the first i listed releases is done. */
    ghost predicate Passed(start: Plane, items: seq<Release>, i: nat, now: int)
      reads configs, releases
      requires i <= |items|
    {
      Valid() && Ticked(start, Plane(releases.releases, configs.versions), items[..i], now)
    }

    /** The page the scheduler works on. */
    method ListOldest() returns (items: seq<Release>)
      requires releases.Valid()
      ensures Listed(releases.releases, items)
    {
      ghost var all;
      var total;
      items, total, all := releases.List(1, 200);
    }

    /** One loop turn extends the pass by the listed release. */
    method AdvanceOne(items: seq<Release>, i: nat, ghost start: Plane, now: int)
      requires i < |items| && Listed(start.releases, items) && Passed(start, items, i, now)
      modifies releases, configs
      ensures Passed(start, items, i + 1, now)
    {
      ghost var before := releases.releases;
      PageEntry(start.releases, items, i);
      Handle(items[i], start, items[..i], now);
      TickOneMore(start, before, Plane(releases.releases, configs.versions), items, i, now);
    }

    /** The loop body: what a pass does with a release depends on the state it was listed in. */
    method Handle(r: Release, ghost start: Plane, ghost done: seq<Release>, now: int)
      requires Valid() && r.id in releases.releases && releases.releases[r.id] == r
      requires VersionsTicked(start.versions, configs.versions, done, now)
      modifies releases, configs
      ensures Valid() && releases.releases == old(releases.releases)[r.id := Advanced(r, now)]
      ensures VersionsTicked(start.versions, configs.versions, done + [r], now)
    {
      match r.state
      case Pending =>
        Move(r, Running, C.Scheduled, C.RollingOut, start, done, now);
      case Retrying =>
        Move(r, Running, C.Scheduled, C.RollingOut, start, done, now);
      case Running =>
        if r.currentWave + 1 < |r.waves| {
          NextWave(r, now);
          IdleExtendsTick(start.versions, configs.versions, done, r, now);
        } else {
          Move(r, Succeeded, C.RollingOut, C.Published, start, done, now);
        }
      case _ =>
        IdleExtendsTick(start.versions, configs.versions, done, r, now);
    }

    /** The wave advance written from the listed copy. */
    method NextWave(r: Release, now: int)
      requires Valid() && r.id in releases.releases && releases.releases[r.id] == r
      requires r.state == Running && !r.LastWave()
      modifies releases
      ensures Valid() && releases.releases == old(releases.releases)[r.id := Advanced(r, now)]
    {
      var moved := r.(currentWave := r.currentWave + 1, revision := r.revision + 1, updatedAt := now);
      var err := releases.Update(moved, moved.revision - 1);
    }

    /** A scheduler transition under the next token, followed by the version loop. */
    method Move(
      r: Release, to: State, from: C.VersionState, vto: C.VersionState,
      ghost start: Plane, ghost done: seq<Release>, now: int)
      requires Valid() && r.id in releases.releases && releases.releases[r.id] == r
      requires VersionsTicked(start.versions, configs.versions, done, now)
      requires (Starts(r) && to == Running && from == C.Scheduled && vto == C.RollingOut)
               || (Finishes(r) && to == Succeeded && from == C.RollingOut && vto == C.Published)
      modifies releases, configs
      ensures Valid() && releases.releases == old(releases.releases)[r.id := Advanced(r, now)]
      ensures VersionsTicked(start.versions, configs.versions, done + [r], now)
    {
      ghost var before := configs.versions;
      var next := TransitionRelease(r.id, to, "", r.fencingToken + 1, now);
      match next
      case Err(_) =>
      case Ok(moved) =>
        CarriedIsAdvanced(r, moved, to, now);
        RollVersions(moved.versionRefs, from, vto, now);
        RollingExtendsTick(start.versions, before, configs.versions, done, r, from, vto, now);
    }
  }

  /**
   The fault is real: a release with a negative wave can be created like any other, and from then on
   every assessment of it faults, whatever the gate.
   */
  lemma NegativeWaveFaults(c: C.Config, v: C.ConfigVersion, r: Release, gate: HealthGate, at: int)
    returns (actions: seq<Protocol.Action>)
    requires Witness.Plain(c, v, r) && r.currentWave < 0 && gate.samples >= 1 && 0 <= gate.failures <= gate.samples
    ensures AssessmentOf(Protocol.Exec(actions).shared.repo.releases, r.id, gate) == Err(Fault)
  {
    actions := Witness.OneReleaseIsReachable(c, v, r, at);
  }

  /** The error for the first reference that no release may carry. */
  function FirstRefusal(versions: map<VersionRef, C.ConfigVersion>, refs: seq<VersionRef>): Option<Error> {
    if refs == [] then None
    else if refs[0] !in versions then Some(NotFound)
    else if versions[refs[0]].state in {C.Scheduled, C.Reviewing} then FirstRefusal(versions, refs[1..])
    else Some(Precondition)
  }

  /** The first reference that fails decides: a missing version is not found, any other fails the precondition. */
  lemma {:induction false} FirstFailureDecides(
    versions: map<VersionRef, C.ConfigVersion>, good: seq<VersionRef>, bad: VersionRef, rest: seq<VersionRef>)
    requires Releasable(versions, good) && !Releasable(versions, [bad])
    ensures FirstRefusal(versions, good + [bad] + rest)
            == Some(if bad in versions then Precondition else NotFound)
  {
    var refs := good + [bad] + rest;
    if good != [] {
      FirstFailureDecides(versions, good[1..], bad, rest);
      assert refs[1..] == good[1..] + [bad] + rest && refs[0] == good[0];
    } else {
      assert refs[0] == bad;
    }
  }

  /** What an assessment says, without division: the limit of the wave, and who is over it. */
  lemma AssessmentMeans(releases: map<string, Release>, id: string, gate: HealthGate, limit: real)
    requires id in releases && releases[id].currentWave >= 0 && gate.samples >= 1 && 0 <= gate.failures <= gate.samples
    requires var r := releases[id];
             limit == if r.currentWave < |r.waves| then r.waves[r.currentWave].maxFailureRate else 0.0
    ensures AssessmentOf(releases, id, gate).Ok?
    ensures var r, a := releases[id], AssessmentOf(releases, id, gate).value;
            var over := r.currentWave < |r.waves| && gate.failures as real > limit * gate.samples as real;
            && a.state == r.state && a.currentWave == r.currentWave && a.allowedRate == limit
            && a.failureRate * gate.samples as real == gate.failures as real
            && (a.shouldPause <==> over && r.state == Running)
            && (a.advice == PauseAndInvestigate <==> over)
            && (a.advice == NoActionNotRunning <==> !over && r.state != Running)
            && (a.advice == Continue <==> !over && r.state == Running)
  {
    FailingIff(releases[id], gate);
    ShareAbove(gate.failures as real, gate.samples as real, limit);
  }

  lemma {:induction false} NoRefusalIffReleasable(versions: map<VersionRef, C.ConfigVersion>, refs: seq<VersionRef>)
    ensures FirstRefusal(versions, refs).None? <==> Releasable(versions, refs)
    ensures FirstRefusal(versions, refs).Some? ==> FirstRefusal(versions, refs).value in {NotFound, Precondition}
  {
    if refs != [] {
      NoRefusalIffReleasable(versions, refs[1..]);
      assert refs == [refs[0]] + refs[1..];
    }
  }

  lemma ListingFollowed(st: Store, id: string, versions: seq<C.ConfigVersion>, n: int)
    requires Numbered(st) && ListsVersions(st.versions, id, {}, versions)
    requires n >= 1 && forall k :: 0 <= k < |versions| ==> versions[k].number < n
    requires n > 1 ==> exists k :: 0 <= k < |versions| && versions[k].number == n - 1
    ensures n == NextNumber(st.versions.Keys, id)
  {
    forall ref | ref in st.versions && ref.configID == id ensures ref.version < n {
      assert st.versions[ref] in versions;
    }
    if n > 1 {
      var k :| 0 <= k < |versions| && versions[k].number == n - 1;
      assert versions[k].Ref() == VersionRef(id, n - 1);
    }
    NextNumberIsUnique(st.versions.Keys, id, n);
  }

  lemma RollOne(
    start: Versions, before: Versions, after: Versions, refs: seq<VersionRef>, i: nat,
    from: C.VersionState, to: C.VersionState, now: int)
    requires i < |refs| && from != to && RolledOver(start, before, refs[..i], from, to, now)
    requires after == if refs[i] in before then before[refs[i] := Rolled(before[refs[i]], from, to, now)] else before
    ensures RolledOver(start, after, refs[..i + 1], from, to, now)
  {
    assert refs[..i + 1] == refs[..i] + [refs[i]];
  }
}
