/**
 The release and version protocol under arbitrary interleaving.

 Any number of clients and schedulers run the operations of internal/application. Each repository
 call is one atomic step; between two calls an operation keeps only its own copies of what it read.
 A run is a list of actions, so every interleaving is some list and every reachable world is
 `Exec` of one. An operation that fails a check of its own simply is not resumed again.
 */
module Protocol {
  import opened Common
  import opened ReleaseDomain
  import opened ReleaseRepository
  import opened ConfigRepository
  import C = ConfigDomain

  /** What all operations share, plus the list of records ever stored for each release. */
  datatype Shared = Shared(store: Store, repo: Repo, history: map<string, seq<Release>>)

  /** What happens after a release write: return, next listed release, or the version loop. */
  datatype Cont =
    | Return
    | NextRelease(todo: seq<Release>)
    | RollVersions(from: C.VersionState, to: C.VersionState, todo: seq<Release>)

  /** What happens after a version write: return, or the rest of the scheduler's version loop. */
  datatype VersionCont =
    | VersionReturn
    | NextRef(refs: seq<VersionRef>, from: C.VersionState, to: C.VersionState, owner: string, todo: seq<Release>)

  /** The dependency check of a new version; what follows holds whatever it accepts. */
  type Check = (Store, C.ConfigVersion) -> bool

  /** An operation in flight, named after the repository call it makes next. */
  datatype Proc =
    | CreatingRelease(draft: Release, refs: seq<VersionRef>)
    | GettingRelease(id: string, to: State, reason: string, token: int, cont: Cont)
    | PuttingRelease(read: Release, next: Release, cont: Cont)
    | GettingForRetry(id: string)
    | Assessing(id: string, gate: HealthGate, token: int, reason: string)
    | Listing
    | Advancing(todo: seq<Release>)
    | Rolling(refs: seq<VersionRef>, from: C.VersionState, vto: C.VersionState, owner: string, todo: seq<Release>)
    | GettingVersion(ref: VersionRef, vto: C.VersionState, expected: int, vcont: VersionCont)
    | PuttingVersion(vread: C.ConfigVersion, vnext: C.ConfigVersion, vcont: VersionCont)
    | Numbering(version: C.ConfigVersion, valueOk: bool, check: Check)
    | CheckingVersion(version: C.ConfigVersion, check: Check)
    | InsertingVersion(version: C.ConfigVersion)

  datatype World = World(shared: Shared, procs: map<nat, Proc>)

  datatype Action =
    | CreateConfiguration(config: C.Config)
    | Spawn(pid: nat, proc: Proc)
    | Resume(pid: nat, at: int, all: seq<Release>)

  /** The shared state after one repository call, and how the operation goes on. */
  datatype Turn = Turn(shared: Shared, next: Option<Proc>)

  const EMPTY := World(Shared(Store(map[], map[], map[]), Repo(map[], map[]), map[]), map[])

  /**
   The operations a caller may start. Only the scheduler asks for `Succeeded` and `Published`; every
   HTTP handler asks for less than is allowed here.
   */
  predicate Entry(p: Proc) {
    match p
    case CreatingRelease(draft, refs) =>
      ValidRelease(draft) && draft.state == Pending && draft.revision == 1 && refs == draft.versionRefs
    case GettingRelease(_, to, _, _, cont) => to != Succeeded && cont == Return
    case GettingForRetry(_) => true
    case Assessing(_, gate, _, _) => gate.samples >= 1 && 0 <= gate.failures <= gate.samples
    case Listing => true
    case GettingVersion(_, to, _, vcont) => to != C.Published && vcont == VersionReturn
    case Numbering(v, _, _) => v.state == C.Draft && v.revision == 1
    case _ => false
  }

  /** Every handler and the scheduler can start what they are there for. */
  lemma HandlersMayStart(r: Release, id: string, reason: string, token: int, gate: HealthGate, ref: VersionRef)
    ensures Entry(Listing) && Entry(GettingForRetry(id))
    ensures forall to :: to != Succeeded ==> Entry(GettingRelease(id, to, reason, token, Return))
    ensures gate.samples >= 1 && 0 <= gate.failures <= gate.samples ==> Entry(Assessing(id, gate, token, reason))
    ensures Entry(GettingVersion(ref, C.Reviewing, token, VersionReturn))
    ensures Entry(GettingVersion(ref, C.Scheduled, token, VersionReturn))
    ensures ValidRelease(r) && r.state == Pending && r.revision == 1 ==> Entry(CreatingRelease(r, r.versionRefs))
  {
  }

  function AfterRelease(cont: Cont, written: Option<Release>): Option<Proc> {
    match cont
    case Return => None
    case NextRelease(todo) => Some(Advancing(todo))
    case RollVersions(from, to, todo) =>
      if written.Some? then Some(Rolling(written.value.versionRefs, from, to, written.value.id, todo))
      else Some(Advancing(todo))
  }

  function AfterVersion(vcont: VersionCont): Option<Proc> {
    match vcont
    case VersionReturn => None
    case NextRef(refs, from, to, owner, todo) => Some(Rolling(refs, from, to, owner, todo))
  }

  /** The body of the scheduler loop for one listed snapshot. */
  function AdvanceOne(r: Release, rest: seq<Release>, at: int): Proc {
    match r.state
    case Pending =>
      GettingRelease(r.id, Running, "", r.fencingToken + 1, RollVersions(C.Scheduled, C.RollingOut, rest))
    case Retrying =>
      GettingRelease(r.id, Running, "", r.fencingToken + 1, RollVersions(C.Scheduled, C.RollingOut, rest))
    case Running =>
      if r.currentWave + 1 < |r.waves| then
        PuttingRelease(r, r.(currentWave := r.currentWave + 1, revision := r.revision + 1, updatedAt := at),
                       NextRelease(rest))
      else
        GettingRelease(r.id, Succeeded, "", r.fencingToken + 1, RollVersions(C.RollingOut, C.Published, rest))
    case _ => Advancing(rest)
  }

  /** `CreateRelease`: one read per reference, then the insertion. */
  function CreateTurn(s: Shared, draft: Release, refs: seq<VersionRef>): Turn {
    if refs == [] then
      var w := CreateRelease(s.repo, draft);
      if w.error.Some? then Turn(s, None)
      else Turn(s.(repo := w.repo, history := s.history[draft.id := [draft]]), None)
    else if refs[0] in s.store.versions && s.store.versions[refs[0]].state in {C.Scheduled, C.Reviewing} then
      Turn(s, Some(CreatingRelease(draft, refs[1..])))
    else Turn(s, None)
  }

  /** `TransitionRelease` up to its write. */
  function GetReleaseTurn(s: Shared, id: string, to: State, reason: string, token: int, cont: Cont, at: int): Turn {
    if id !in s.repo.releases then Turn(s, AfterRelease(cont, None))
    else
      match s.repo.releases[id].Transition(to, token, at)
      case Err(_) => Turn(s, AfterRelease(cont, None))
      case Ok(next) => Turn(s, Some(PuttingRelease(s.repo.releases[id], WithReason(next, to, reason), cont)))
  }

  /** The repository after an accepted write, with the record added to its history. */
  function Appended(s: Shared, repo: Repo, next: Release): Shared {
    var past := if next.id in s.history then s.history[next.id] else [];
    s.(repo := repo, history := s.history[next.id := past + [next]])
  }

  /** The compare-and-set that ends every release change. */
  function PutReleaseTurn(s: Shared, read: Release, next: Release, cont: Cont): Turn {
    var w := UpdateRelease(s.repo, next, read.revision);
    if w.error.Some? then Turn(s, AfterRelease(cont, None))
    else Turn(Appended(s, w.repo, next), AfterRelease(cont, Some(next)))
  }

  /** `RetryRelease` up to its write. */
  function RetryTurn(s: Shared, id: string, at: int): Turn {
    if id !in s.repo.releases || s.repo.releases[id].state != Failed then Turn(s, None)
    else
      var r := s.repo.releases[id];
      match r.Transition(State.Retrying, r.fencingToken + 1, at)
      case Err(_) => Turn(s, None)
      case Ok(next) => Turn(s, Some(PuttingRelease(r, next, Return)))
  }

  /** `ApplyHealthGate`: the assessment, then a pause through `TransitionRelease`. */
  function AssessTurn(s: Shared, id: string, gate: HealthGate, token: int, reason: string): Turn {
    if id in s.repo.releases && s.repo.releases[id].state == Running
       && s.repo.releases[id].ShouldPause(gate) == Some(true)
    then Turn(s, Some(GettingRelease(id, Paused, reason, token, Return)))
    else Turn(s, None)
  }

  /** The scheduler's loop over the version references of a release it has just moved. */
  function RollTurn(
    s: Shared, refs: seq<VersionRef>, from: C.VersionState, to: C.VersionState, owner: string, todo: seq<Release>): Turn
  {
    if refs == [] then Turn(s, Some(Advancing(todo)))
    else if refs[0] in s.store.versions && s.store.versions[refs[0]].state == from then
      Turn(s, Some(GettingVersion(refs[0], to, s.store.versions[refs[0]].revision,
                                  NextRef(refs[1..], from, to, owner, todo))))
    else Turn(s, Some(Rolling(refs[1..], from, to, owner, todo)))
  }

  /** `TransitionVersion` up to its write. */
  function GetVersionTurn(
    s: Shared, ref: VersionRef, to: C.VersionState, expected: int, vcont: VersionCont, at: int): Turn
  {
    if ref !in s.store.versions || s.store.versions[ref].revision != expected then Turn(s, AfterVersion(vcont))
    else
      match s.store.versions[ref].Transition(to, at)
      case Err(_) => Turn(s, AfterVersion(vcont))
      case Ok(next) => Turn(s, Some(PuttingVersion(s.store.versions[ref], next, vcont)))
  }

  /** `CreateVersion` up to its dependency check: the configuration, the value, the number and the rules. */
  ghost function NumberTurn(s: Shared, v: C.ConfigVersion, valueOk: bool, check: Check): Turn {
    if v.configID in s.store.configs && valueOk && forall i :: 0 <= i < |v.rules| ==> C.ValidRule(v.rules[i]) then
      Turn(s, Some(CheckingVersion(v.(number := NextNumber(s.store.versions.Keys, v.configID)), check)))
    else Turn(s, None)
  }

  /** The dependency check, which reads the listing a second time. */
  function CheckTurn(s: Shared, v: C.ConfigVersion, check: Check): Turn {
    if check(s.store, v) then Turn(s, Some(InsertingVersion(v))) else Turn(s, None)
  }

  /** One repository call of an operation. */
  ghost function Call(s: Shared, p: Proc, at: int, all: seq<Release>): Turn {
    match p
    case CreatingRelease(draft, refs) => CreateTurn(s, draft, refs)
    case GettingRelease(id, to, reason, token, cont) => GetReleaseTurn(s, id, to, reason, token, cont, at)
    case PuttingRelease(read, next, cont) => PutReleaseTurn(s, read, next, cont)
    case GettingForRetry(id) => RetryTurn(s, id, at)
    case Assessing(id, gate, token, reason) => AssessTurn(s, id, gate, token, reason)
    case Listing =>
      Turn(s, Some(if OldestFirst(s.repo.releases, all) then Advancing(Page(all, 1, 200)) else p))
    case Advancing(todo) =>
      Turn(s, if todo == [] then None else Some(AdvanceOne(todo[0], todo[1..], at)))
    case Rolling(refs, from, to, owner, todo) => RollTurn(s, refs, from, to, owner, todo)
    case GettingVersion(ref, to, expected, vcont) => GetVersionTurn(s, ref, to, expected, vcont, at)
    case PuttingVersion(read, next, vcont) =>
      Turn(s.(store := ReplaceVersion(s.store, next, read.revision).store), AfterVersion(vcont))
    case Numbering(v, valueOk, check) => NumberTurn(s, v, valueOk, check)
    case CheckingVersion(v, check) => CheckTurn(s, v, check)
    case InsertingVersion(v) =>
      Turn(s.(store := InsertVersion(s.store, v).store), None)
  }

  ghost function Step(w: World, a: Action): World {
    match a
    case CreateConfiguration(c) =>
      if c.Valid() then w.(shared := w.shared.(store := CreateConfig(w.shared.store, c).store)) else w
    case Spawn(pid, p) =>
      if pid !in w.procs && Entry(p) then w.(procs := w.procs[pid := p]) else w
    case Resume(pid, at, all) =>
      if pid !in w.procs then w
      else
        var t := Call(w.shared, w.procs[pid], at, all);
        World(t.shared, if t.next.Some? then w.procs[pid := t.next.value] else w.procs - {pid})
  }

  /** The world a run leads to from the empty one. */
  ghost function Exec(actions: seq<Action>): World
    decreases |actions|, 1
  {
    if actions == [] then EMPTY else Last(actions)
  }

  /** The world after the last action; apart, so that talk about a run does not unfold its last step. */
  ghost function Last(actions: seq<Action>): World
    requires actions != []
    decreases |actions|, 0
  {
    Step(Exec(actions[..|actions| - 1]), actions[|actions| - 1])
  }

  // -------------------------------------------------------------- invariant

  /** One release: its history ends in the stored record, and every recorded success had walked its plan. */
  ghost predicate RecordedAs(h: seq<Release>, id: string, current: Release) {
    && Chronicle(h)
    && h[|h| - 1] == current
    && (forall i :: 0 <= i < |h| ==> h[i].id == id)
    && (forall i :: 0 <= i < |h| && h[i].state == Succeeded ==> h[i].LastWave())
  }

  ghost predicate Recorded(s: Shared) {
    && s.history.Keys == s.repo.releases.Keys
    && (forall id :: id in s.history ==> RecordedAs(s.history[id], id, s.repo.releases[id]))
  }

  ghost predicate IdempotencyIndexed(m: Repo) {
    forall id :: id in m.releases && m.releases[id].idempotencyKey != "" ==>
                   id != "" && Lookup(m.idempotency, m.releases[id].idempotencyKey) == id
  }

  /** The history shows a success of a release that references the version. */
  ghost predicate Vouches(h: seq<Release>, ref: VersionRef) {
    && h != [] && ref in h[0].versionRefs
    && (exists i :: 0 <= i < |h| && h[i].state == Succeeded)
  }

  ghost predicate Justified(history: map<string, seq<Release>>, ref: VersionRef) {
    exists id :: id in history && Vouches(history[id], ref)
  }

  ghost predicate PublishedOnSuccess(s: Shared) {
    forall ref :: ref in s.store.versions && s.store.versions[ref].state == C.Published ==> Justified(s.history, ref)
  }

  /** Every reference of a release names a stored version. */
  ghost predicate NoDanglingRefs(s: Shared) {
    forall id, ref :: id in s.repo.releases && ref in s.repo.releases[id].versionRefs ==> ref in s.store.versions
  }

  ghost predicate StoreInv(st: Store) {
    Numbered(st) && Gapless(st) && Indexed(st) && Named(st)
  }

  ghost predicate SharedInv(s: Shared) {
    Recorded(s) && IdempotencyIndexed(s.repo) && PublishedOnSuccess(s) && NoDanglingRefs(s) && StoreInv(s.store)
  }

  /** Every reference but the ones still to be read has been found in the store. */
  ghost predicate Checked(versions: map<VersionRef, C.ConfigVersion>, all: seq<VersionRef>, left: seq<VersionRef>) {
    forall ref :: ref in all ==> ref in left || ref in versions
  }

  /** A copy of a record that was stored at some time: the history entry its revision points to. */
  ghost predicate Seen(history: map<string, seq<Release>>, r: Release) {
    r.id in history && 1 <= r.revision <= |history[r.id]| && history[r.id][r.revision - 1] == r
  }

  ghost predicate SeenAll(history: map<string, seq<Release>>, rs: seq<Release>) {
    forall i :: 0 <= i < |rs| ==> Seen(history, rs[i])
  }

  /** A copy of a version that is current, or has an older revision of the same content. */
  ghost predicate Known(versions: map<VersionRef, C.ConfigVersion>, v: C.ConfigVersion) {
    && v.Ref() in versions
    && v.revision <= versions[v.Ref()].revision
    && C.SameContent(v, versions[v.Ref()])
    && (v.revision == versions[v.Ref()].revision ==> v == versions[v.Ref()])
  }

  ghost predicate RollingOk(
    history: map<string, seq<Release>>, refs: seq<VersionRef>, to: C.VersionState, owner: string, todo: seq<Release>)
  {
    && SeenAll(history, todo)
    && (to == C.Published ==>
          owner in history && forall i :: 0 <= i < |refs| ==> Vouches(history[owner], refs[i]))
  }

  ghost predicate ContOk(history: map<string, seq<Release>>, cont: Cont, to: State) {
    && (cont.NextRelease? || cont.RollVersions? ==> SeenAll(history, cont.todo))
    && (cont.RollVersions? && cont.to == C.Published ==> to == Succeeded)
  }

  ghost predicate VersionContOk(history: map<string, seq<Release>>, vcont: VersionCont) {
    vcont.NextRef? ==> RollingOk(history, vcont.refs, vcont.to, vcont.owner, vcont.todo)
  }

  /** The newest record of the release has no wave after its current one. */
  ghost predicate Walked(history: map<string, seq<Release>>, id: string) {
    id in history && history[id] != [] && history[id][|history[id]| - 1].LastWave()
  }

  /** A legal successor of a record that was stored at some time; a success has walked its plan. */
  ghost predicate Succeeds(history: map<string, seq<Release>>, read: Release, next: Release) {
    Seen(history, read) && Evolves(read, next) && (next.state == Succeeded ==> next.LastWave())
  }

  /** A draft whose number leaves no gap, however many others have been inserted since it was numbered. */
  ghost predicate DraftOk(st: Store, v: C.ConfigVersion) {
    v.state == C.Draft && LeavesNoGap(st.versions, v)
  }

  ghost predicate ProcInv(s: Shared, p: Proc) {
    match p
    case CreatingRelease(draft, refs) =>
      && draft.id != "" && draft.state == Pending && draft.revision == 1
      && Checked(s.store.versions, draft.versionRefs, refs)
    case GettingRelease(id, to, _, _, cont) =>
      ContOk(s.history, cont, to) && (to == Succeeded ==> Walked(s.history, id))
    case PuttingRelease(read, next, cont) =>
      Succeeds(s.history, read, next) && ContOk(s.history, cont, next.state)
    case Advancing(todo) => SeenAll(s.history, todo)
    case Rolling(refs, _, to, owner, todo) => RollingOk(s.history, refs, to, owner, todo)
    case GettingVersion(ref, to, _, vcont) =>
      VersionContOk(s.history, vcont) && (to == C.Published ==> Justified(s.history, ref))
    case PuttingVersion(read, next, vcont) =>
      && Known(s.store.versions, read) && read.Transition(next.state, next.updatedAt) == Ok(next)
      && VersionContOk(s.history, vcont) && (next.state == C.Published ==> Justified(s.history, read.Ref()))
    case Numbering(v, _, _) => v.state == C.Draft
    case CheckingVersion(v, _) => DraftOk(s.store, v)
    case InsertingVersion(v) => DraftOk(s.store, v)
    case _ => true
  }

  ghost predicate Inv(w: World) {
    SharedInv(w.shared) && forall pid :: pid in w.procs ==> ProcInv(w.shared, w.procs[pid])
  }

  // --------------------------------------------- what later states keep

  ghost predicate HistoryGrows(h: map<string, seq<Release>>, g: map<string, seq<Release>>) {
    forall id :: id in h ==> id in g && h[id] <= g[id]
  }

  ghost predicate StoreGrows(s: Store, t: Store) {
    && (forall id :: id in s.configs ==> id in t.configs && t.configs[id] == s.configs[id])
    && (forall ref :: ref in s.versions ==> Known(t.versions, s.versions[ref]))
  }

  /** What any later shared state keeps of an earlier one. */
  ghost predicate Extends(s: Shared, t: Shared) {
    HistoryGrows(s.history, t.history) && StoreGrows(s.store, t.store)
  }

  lemma VouchesPersists(h: seq<Release>, g: seq<Release>, ref: VersionRef)
    requires h <= g && Vouches(h, ref)
    ensures Vouches(g, ref)
  {
    var i :| 0 <= i < |h| && h[i].state == Succeeded;
    assert g[i] == h[i] && g[0] == h[0];
  }

  lemma JustifiedPersists(h: map<string, seq<Release>>, g: map<string, seq<Release>>, ref: VersionRef)
    requires HistoryGrows(h, g) && Justified(h, ref)
    ensures Justified(g, ref)
  {
    var id :| id in h && Vouches(h[id], ref);
    VouchesPersists(h[id], g[id], ref);
  }

  lemma RollingPersists(
    h: map<string, seq<Release>>, g: map<string, seq<Release>>,
    refs: seq<VersionRef>, to: C.VersionState, owner: string, todo: seq<Release>)
    requires HistoryGrows(h, g) && RollingOk(h, refs, to, owner, todo)
    ensures RollingOk(g, refs, to, owner, todo)
  {
    if to == C.Published {
      forall i | 0 <= i < |refs| ensures Vouches(g[owner], refs[i]) {
        VouchesPersists(h[owner], g[owner], refs[i]);
      }
    }
  }

  lemma SeenPersists(h: map<string, seq<Release>>, g: map<string, seq<Release>>, rs: seq<Release>)
    requires HistoryGrows(h, g) && SeenAll(h, rs)
    ensures SeenAll(g, rs)
  {
    forall i | 0 <= i < |rs| ensures Seen(g, rs[i]) {
      assert Seen(h, rs[i]);
    }
  }

  /** A plan once walked stays walked, whatever is stored later. */
  lemma WalkedPersists(h: seq<Release>, g: seq<Release>)
    requires h != [] && h <= g && Chronicle(g) && h[|h| - 1].LastWave()
    ensures g[|g| - 1].LastWave()
  {
    ChronicleIsMonotone(g, |h| - 1, |g| - 1);
  }

  lemma ContPersists(h: map<string, seq<Release>>, g: map<string, seq<Release>>, cont: Cont, to: State)
    requires HistoryGrows(h, g) && ContOk(h, cont, to)
    ensures ContOk(g, cont, to)
  {
    if !cont.Return? { SeenPersists(h, g, cont.todo); }
  }

  lemma VersionContPersists(h: map<string, seq<Release>>, g: map<string, seq<Release>>, vcont: VersionCont)
    requires HistoryGrows(h, g) && VersionContOk(h, vcont)
    ensures VersionContOk(g, vcont)
  {
    if vcont.NextRef? { RollingPersists(h, g, vcont.refs, vcont.to, vcont.owner, vcont.todo); }
  }

  lemma PlanStaysWalked(h: map<string, seq<Release>>, t: Shared, id: string)
    requires Recorded(t) && HistoryGrows(h, t.history) && Walked(h, id)
    ensures Walked(t.history, id)
  {
    WalkedPersists(h[id], t.history[id]);
  }

  lemma SucceedsPersists(h: map<string, seq<Release>>, g: map<string, seq<Release>>, read: Release, next: Release)
    requires HistoryGrows(h, g) && Succeeds(h, read, next)
    ensures Succeeds(g, read, next)
  {
    SeenPersists(h, g, [read]);
    assert Seen(g, [read][0]);
  }

  lemma ReleaseProcPersists(s: Shared, t: Shared, p: Proc)
    requires Recorded(t) && HistoryGrows(s.history, t.history) && ProcInv(s, p)
    requires p.GettingRelease? || p.PuttingRelease? || p.Advancing? || p.Rolling?
    ensures ProcInv(t, p)
  {
    var h, g := s.history, t.history;
    match p
    case GettingRelease(id, to, _, _, cont) =>
      ContPersists(h, g, cont, to);
      if to == Succeeded { PlanStaysWalked(h, t, id); }
    case PuttingRelease(read, next, cont) =>
      SucceedsPersists(h, g, read, next);
      ContPersists(h, g, cont, next.state);
    case Advancing(todo) => SeenPersists(h, g, todo);
    case Rolling(refs, _, to, owner, todo) => RollingPersists(h, g, refs, to, owner, todo);
  }

  lemma VersionProcPersists(s: Shared, t: Shared, p: Proc)
    requires Numbered(s.store) && Extends(s, t) && ProcInv(s, p)
    requires p.CreatingRelease? || p.GettingVersion? || p.PuttingVersion? || p.CheckingVersion? || p.InsertingVersion?
    ensures ProcInv(t, p)
  {
    var h, g := s.history, t.history;
    match p
    case CreatingRelease(_, _) => VersionsPersist(s.store, t.store);
    case CheckingVersion(_, _) => VersionsPersist(s.store, t.store);
    case InsertingVersion(_) => VersionsPersist(s.store, t.store);
    case GettingVersion(ref, to, _, vcont) =>
      VersionContPersists(h, g, vcont);
      if to == C.Published { JustifiedPersists(h, g, ref); }
    case PuttingVersion(read, next, vcont) =>
      VersionContPersists(h, g, vcont);
      KnownPersists(s.store, t.store, read);
      if next.state == C.Published { JustifiedPersists(h, g, read.Ref()); }
  }

  /** What an operation holds stays usable while others write. */
  lemma ProcPersists(s: Shared, t: Shared, p: Proc)
    requires Numbered(s.store) && Recorded(t) && Extends(s, t) && ProcInv(s, p)
    ensures ProcInv(t, p)
  {
    if p.GettingRelease? || p.PuttingRelease? || p.Advancing? || p.Rolling? {
      ReleaseProcPersists(s, t, p);
    } else if !(p.GettingForRetry? || p.Assessing? || p.Listing? || p.Numbering?) {
      VersionProcPersists(s, t, p);
    }
  }

  lemma KnownPersists(s: Store, t: Store, v: C.ConfigVersion)
    requires StoreGrows(s, t) && Known(s.versions, v)
    ensures Known(t.versions, v)
  {
    assert Known(t.versions, s.versions[v.Ref()]);
  }

  lemma VersionsPersist(s: Store, t: Store)
    requires StoreGrows(s, t) && Numbered(s)
    ensures forall ref :: ref in s.versions ==> ref in t.versions
  {
    forall ref | ref in s.versions ensures ref in t.versions {
      assert Known(t.versions, s.versions[ref]);
    }
  }

  lemma StoreKept(st: Store)
    requires Numbered(st)
    ensures StoreGrows(st, st)
  {
  }

  // ------------------------------------------------- what one step preserves

  /** An up-to-date revision means an up-to-date copy. */
  lemma CurrentRevisionIsCurrentRecord(s: Shared, r: Release)
    requires Recorded(s) && Seen(s.history, r)
    ensures r.id in s.repo.releases
    ensures s.repo.releases[r.id].revision == r.revision <==> s.repo.releases[r.id] == r
  {
    var h := s.history[r.id];
    assert RecordedAs(h, r.id, s.repo.releases[r.id]);
    assert h[|h| - 1].revision == |h|;
  }

  lemma CurrentIsSeen(s: Shared, id: string)
    requires Recorded(s) && id in s.repo.releases
    ensures Seen(s.history, s.repo.releases[id]) && s.repo.releases[id].id == id
  {
    var h := s.history[id];
    assert RecordedAs(h, id, s.repo.releases[id]);
    assert h[|h| - 1].revision == |h|;
  }

  lemma JustificationsPersist(s: Shared, t: Shared)
    requires HistoryGrows(s.history, t.history) && PublishedOnSuccess(s)
    requires forall ref :: ref in t.store.versions && t.store.versions[ref].state == C.Published ==>
                             (ref in s.store.versions && s.store.versions[ref].state == C.Published)
                             || Justified(s.history, ref)
    ensures PublishedOnSuccess(t)
  {
    forall ref | ref in t.store.versions && t.store.versions[ref].state == C.Published
      ensures Justified(t.history, ref)
    {
      JustifiedPersists(s.history, t.history, ref);
    }
  }

  lemma SameStoreKeepsPublished(s: Shared, t: Shared)
    requires t.store == s.store && HistoryGrows(s.history, t.history) && PublishedOnSuccess(s)
    ensures PublishedOnSuccess(t)
  {
    JustificationsPersist(s, t);
  }

  ghost predicate TurnOk(s: Shared, t: Turn) {
    SharedInv(t.shared) && Extends(s, t.shared) && (t.next.Some? ==> ProcInv(t.shared, t.next.value))
  }

  /** Appending a legal successor keeps one release's bookkeeping. */
  lemma AppendKeepsRecord(h: seq<Release>, id: string, read: Release, next: Release)
    requires RecordedAs(h, id, read) && Evolves(read, next) && (next.state == Succeeded ==> next.LastWave())
    ensures RecordedAs(h + [next], id, next)
    ensures next.idempotencyKey == read.idempotencyKey
  {
    ChronicleGrows(h, next);
  }

  /** The shared state after an accepted write. */
  ghost function Written(s: Shared, read: Release, next: Release): Shared {
    Appended(s, UpdateRelease(s.repo, next, read.revision).repo, next)
  }

  ghost predicate Accepted(s: Shared, read: Release, next: Release) {
    UpdateRelease(s.repo, next, read.revision).error.None?
  }

  /** An accepted write replaces the record read and appends to its history. */
  lemma WriteAppends(s: Shared, read: Release, next: Release)
    requires Recorded(s) && Succeeds(s.history, read, next) && Accepted(s, read, next)
    ensures var t := Written(s, read, next);
            && next.id in s.repo.releases && s.repo.releases[next.id] == read
            && HistoryGrows(s.history, t.history) && next.id in t.history
            && RecordedAs(t.history[next.id], next.id, next)
  {
    CurrentRevisionIsCurrentRecord(s, read);
    assert RecordedAs(s.history[next.id], next.id, read);
    AppendKeepsRecord(s.history[next.id], next.id, read, next);
  }

  /** It appends to exactly one history. */
  lemma WriteKeepsRecords(s: Shared, read: Release, next: Release)
    requires Recorded(s) && Succeeds(s.history, read, next) && Accepted(s, read, next)
    ensures Recorded(Written(s, read, next))
  {
    WriteAppends(s, read, next);
    var t := Written(s, read, next);
    forall id | id in t.history ensures RecordedAs(t.history[id], id, t.repo.releases[id]) {
      assert id != next.id ==> RecordedAs(s.history[id], id, s.repo.releases[id]);
    }
  }

  lemma PutKeepsIdempotency(m: Repo, read: Release, next: Release)
    requires IdempotencyIndexed(m) && next.id in m.releases && m.releases[next.id] == read
    requires Evolves(read, next)
    ensures IdempotencyIndexed(UpdateRelease(m, next, read.revision).repo)
  {
  }

  /** References outlive writes: versions are never removed and a release keeps its references. */
  lemma ReferencesPersist(s: Shared, t: Shared)
    requires NoDanglingRefs(s) && Numbered(s.store) && StoreGrows(s.store, t.store)
    requires forall id :: id in t.repo.releases ==>
               || (id in s.repo.releases && t.repo.releases[id].versionRefs == s.repo.releases[id].versionRefs)
               || Checked(s.store.versions, t.repo.releases[id].versionRefs, [])
    ensures NoDanglingRefs(t)
  {
    VersionsPersist(s.store, t.store);
  }

  lemma WriteKeeps(s: Shared, read: Release, next: Release)
    requires Recorded(s) && IdempotencyIndexed(s.repo) && PublishedOnSuccess(s) && Succeeds(s.history, read, next)
    requires Accepted(s, read, next)
    ensures var t := Written(s, read, next);
            && Recorded(t) && IdempotencyIndexed(t.repo) && PublishedOnSuccess(t)
            && t.store == s.store && HistoryGrows(s.history, t.history)
  {
    WriteAppends(s, read, next);
    WriteKeepsRecords(s, read, next);
    PutKeepsIdempotency(s.repo, read, next);
    SameStoreKeepsPublished(s, Written(s, read, next));
  }

  lemma PutReleaseKeeps(s: Shared, read: Release, next: Release, cont: Cont)
    requires Recorded(s) && IdempotencyIndexed(s.repo) && PublishedOnSuccess(s) && Succeeds(s.history, read, next)
    ensures var t := PutReleaseTurn(s, read, next, cont).shared;
            && Recorded(t) && IdempotencyIndexed(t.repo) && PublishedOnSuccess(t)
            && t.store == s.store && HistoryGrows(s.history, t.history)
  {
    if Accepted(s, read, next) { WriteKeeps(s, read, next); }
  }

  lemma ContinueAfterRefusal(s: Shared, cont: Cont, to: State)
    requires ContOk(s.history, cont, to)
    ensures AfterRelease(cont, None).Some? ==> ProcInv(s, AfterRelease(cont, None).value)
  {
  }

  lemma ContinueAfterWrite(s: Shared, t: Shared, next: Release, cont: Cont)
    requires HistoryGrows(s.history, t.history) && ContOk(s.history, cont, next.state)
    requires next.id in t.history && RecordedAs(t.history[next.id], next.id, next)
    ensures AfterRelease(cont, Some(next)).Some? ==> ProcInv(t, AfterRelease(cont, Some(next)).value)
  {
    ContPersists(s.history, t.history, cont, next.state);
    if next.state == Succeeded {
      SuccessVouches(t.history[next.id], next);
    }
  }

  lemma PutReleaseContinues(s: Shared, read: Release, next: Release, cont: Cont)
    requires Recorded(s) && Succeeds(s.history, read, next) && ContOk(s.history, cont, next.state)
    ensures var turn := PutReleaseTurn(s, read, next, cont); turn.next.Some? ==> ProcInv(turn.shared, turn.next.value)
  {
    if Accepted(s, read, next) {
      WriteAppends(s, read, next);
      ContinueAfterWrite(s, Written(s, read, next), next, cont);
    } else {
      ContinueAfterRefusal(s, cont, next.state);
    }
  }

  lemma SuccessVouches(h: seq<Release>, last: Release)
    requires h != [] && Chronicle(h) && h[|h| - 1] == last && last.state == Succeeded
    ensures forall i :: 0 <= i < |last.versionRefs| ==> Vouches(h, last.versionRefs[i])
  {
    ChronicleIsMonotone(h, 0, |h| - 1);
  }

  lemma CreateKeepsIdempotency(m: Repo, draft: Release)
    requires IdempotencyIndexed(m) && draft.id != "" && CreateRelease(m, draft).error.None?
    ensures IdempotencyIndexed(CreateRelease(m, draft).repo)
  {
  }

  /** A stored draft starts a history of its own. */
  lemma CreateKeepsRecords(s: Shared, draft: Release)
    requires Recorded(s) && draft.state == Pending && draft.revision == 1 && CreateRelease(s.repo, draft).error.None?
    ensures var t := CreateTurn(s, draft, []).shared; Recorded(t) && HistoryGrows(s.history, t.history)
  {
    assert RecordedAs([draft], draft.id, draft);
  }

  lemma CreateKeeps(s: Shared, draft: Release, refs: seq<VersionRef>)
    requires Recorded(s) && IdempotencyIndexed(s.repo) && PublishedOnSuccess(s)
    requires ProcInv(s, CreatingRelease(draft, refs))
    ensures var turn := CreateTurn(s, draft, refs);
            && Recorded(turn.shared) && IdempotencyIndexed(turn.shared.repo) && PublishedOnSuccess(turn.shared)
            && turn.shared.store == s.store && HistoryGrows(s.history, turn.shared.history)
            && (turn.next.Some? ==> ProcInv(turn.shared, turn.next.value))
  {
    if refs != [] {
      assert refs == [refs[0]] + refs[1..];
    } else if CreateRelease(s.repo, draft).error.None? {
      CreateKeepsRecords(s, draft);
      CreateKeepsIdempotency(s.repo, draft);
      SameStoreKeepsPublished(s, CreateTurn(s, draft, refs).shared);
    }
  }

  lemma PutKeepsReferences(s: Shared, read: Release, next: Release, cont: Cont)
    requires Recorded(s) && NoDanglingRefs(s) && Numbered(s.store) && Seen(s.history, read) && Evolves(read, next)
    ensures NoDanglingRefs(PutReleaseTurn(s, read, next, cont).shared)
  {
    CurrentRevisionIsCurrentRecord(s, read);
    StoreKept(s.store);
    ReferencesPersist(s, PutReleaseTurn(s, read, next, cont).shared);
  }

  lemma CreateKeepsReferences(s: Shared, draft: Release, refs: seq<VersionRef>)
    requires NoDanglingRefs(s) && Numbered(s.store) && Checked(s.store.versions, draft.versionRefs, refs)
    ensures NoDanglingRefs(CreateTurn(s, draft, refs).shared)
  {
    StoreKept(s.store);
    ReferencesPersist(s, CreateTurn(s, draft, refs).shared);
  }

  lemma ReplaceKeepsStore(st: Store, read: C.ConfigVersion, next: C.ConfigVersion)
    requires StoreInv(st) && Known(st.versions, read) && read.Transition(next.state, next.updatedAt) == Ok(next)
    ensures StoreInv(ReplaceVersion(st, next, read.revision).store)
  {
    assert ReplaceVersion(st, next, read.revision).store.versions.Keys == st.versions.Keys;
  }

  lemma ReplaceKeepsVersions(st: Store, read: C.ConfigVersion, next: C.ConfigVersion)
    requires Numbered(st) && Known(st.versions, read) && read.Transition(next.state, next.updatedAt) == Ok(next)
    ensures StoreGrows(st, ReplaceVersion(st, next, read.revision).store)
  {
  }

  lemma InsertLeavesNoGap(st: Store, v: C.ConfigVersion)
    requires Gapless(st) && LeavesNoGap(st.versions, v)
    ensures Gapless(InsertVersion(st, v).store)
  {
    var t := InsertVersion(st, v).store;
    forall a: VersionRef, b: VersionRef | a in t.versions && a.configID == b.configID && 1 <= b.version < a.version
      ensures b in t.versions
    {
      assert a != v.Ref() ==> a in st.versions;
      assert a == v.Ref() ==> b == VersionRef(v.configID, b.version);
    }
  }

  lemma InsertKeepsStore(st: Store, v: C.ConfigVersion)
    requires Numbered(st) && Indexed(st) && Named(st) && v.number >= 1
    ensures var t := InsertVersion(st, v).store; Numbered(t) && Indexed(t) && Named(t)
  {
  }

  lemma InsertKeepsVersions(st: Store, v: C.ConfigVersion)
    requires Numbered(st)
    ensures StoreGrows(st, InsertVersion(st, v).store)
  {
  }

  lemma WritingVersionKeeps(s: Shared, next: C.ConfigVersion, st: Store)
    requires next.state == C.Published ==> Justified(s.history, next.Ref())
    requires st == s.store.(versions := st.versions)
    requires st.versions == s.store.versions || st.versions == s.store.versions[next.Ref() := next]
    requires PublishedOnSuccess(s)
    ensures PublishedOnSuccess(s.(store := st))
  {
  }

  lemma AdvanceOneIsSound(s: Shared, todo: seq<Release>, at: int)
    requires Recorded(s) && todo != [] && SeenAll(s.history, todo)
    ensures ProcInv(s, AdvanceOne(todo[0], todo[1..], at))
  {
    var r, h := todo[0], s.history[todo[0].id];
    assert Seen(s.history, r);
    forall i | 0 <= i < |todo[1..]| ensures Seen(s.history, todo[1..][i]) {
      assert Seen(s.history, todo[i + 1]);
    }
    assert RecordedAs(h, r.id, s.repo.releases[r.id]);
    ChronicleIsMonotone(h, r.revision - 1, |h| - 1);
  }

  lemma TransitionSucceeds(s: Shared, id: string, to: State, reason: string, token: int, at: int)
    requires Recorded(s) && id in s.repo.releases && (to == Succeeded ==> Walked(s.history, id))
    requires s.repo.releases[id].Transition(to, token, at).Ok?
    ensures var next := WithReason(s.repo.releases[id].Transition(to, token, at).value, to, reason);
            Succeeds(s.history, s.repo.releases[id], next) && next.state == to
  {
    CurrentIsSeen(s, id);
    assert RecordedAs(s.history[id], id, s.repo.releases[id]);
  }

  lemma GetReleaseKeeps(s: Shared, id: string, to: State, reason: string, token: int, cont: Cont, at: int)
    requires Recorded(s) && ContOk(s.history, cont, to) && (to == Succeeded ==> Walked(s.history, id))
    ensures var turn := GetReleaseTurn(s, id, to, reason, token, cont, at);
            turn.shared == s && (turn.next.Some? ==> ProcInv(s, turn.next.value))
  {
    ContinueAfterRefusal(s, cont, to);
    if id in s.repo.releases && s.repo.releases[id].Transition(to, token, at).Ok? {
      TransitionSucceeds(s, id, to, reason, token, at);
    }
  }

  lemma ListedAreSeen(s: Shared, all: seq<Release>)
    requires Recorded(s) && OldestFirst(s.repo.releases, all)
    ensures SeenAll(s.history, Page(all, 1, 200))
  {
    forall i | 0 <= i < |all| ensures Seen(s.history, all[i]) {
      CurrentIsSeen(s, all[i].id);
    }
  }

  lemma RetryKeeps(s: Shared, id: string, at: int)
    requires Recorded(s)
    ensures var turn := RetryTurn(s, id, at); turn.shared == s && (turn.next.Some? ==> ProcInv(s, turn.next.value))
  {
    if id in s.repo.releases { CurrentIsSeen(s, id); }
  }

  lemma ReadingReleaseKeeps(s: Shared, p: Proc, at: int, all: seq<Release>)
    requires Recorded(s) && ProcInv(s, p)
    requires p.GettingForRetry? || p.Listing? || p.Advancing? || p.Assessing?
    ensures var turn := Call(s, p, at, all);
            turn.shared == s && (turn.next.Some? ==> ProcInv(s, turn.next.value))
  {
    match p
    case GettingForRetry(id) => RetryKeeps(s, id, at);
    case Listing =>
      if OldestFirst(s.repo.releases, all) { ListedAreSeen(s, all); }
    case Advancing(todo) =>
      if todo != [] { AdvanceOneIsSound(s, todo, at); }
    case _ =>
  }

  lemma RollKeeps(
    s: Shared, refs: seq<VersionRef>, from: C.VersionState, to: C.VersionState, owner: string, todo: seq<Release>)
    requires RollingOk(s.history, refs, to, owner, todo)
    ensures var turn := RollTurn(s, refs, from, to, owner, todo);
            turn.shared == s && (turn.next.Some? ==> ProcInv(s, turn.next.value))
  {
    if refs != [] && to == C.Published { assert Vouches(s.history[owner], refs[0]); }
  }

  lemma GetVersionKeeps(s: Shared, ref: VersionRef, to: C.VersionState, expected: int, vcont: VersionCont, at: int)
    requires Numbered(s.store) && VersionContOk(s.history, vcont) && (to == C.Published ==> Justified(s.history, ref))
    ensures var turn := GetVersionTurn(s, ref, to, expected, vcont, at);
            turn.shared == s && (turn.next.Some? ==> ProcInv(s, turn.next.value))
  {
  }

  lemma NumberKeeps(s: Shared, v: C.ConfigVersion, valueOk: bool, check: Check)
    requires Numbered(s.store) && Gapless(s.store) && v.state == C.Draft
    ensures var turn := NumberTurn(s, v, valueOk, check); turn.next.Some? ==> ProcInv(s, turn.next.value)
  {
    FreshNumber(s.store, v.configID);
  }

  lemma CheckKeeps(s: Shared, v: C.ConfigVersion, check: Check)
    requires DraftOk(s.store, v)
    ensures var turn := CheckTurn(s, v, check); turn.next.Some? ==> ProcInv(s, turn.next.value)
  {
  }

  /** Writing to the other store touches no release. */
  lemma RecordsIgnoreStore(s: Shared, st: Store)
    requires Recorded(s)
    ensures Recorded(s.(store := st)) && HistoryGrows(s.history, s.history)
  {
  }

  lemma ContinueAfterVersion(t: Shared, vcont: VersionCont)
    requires VersionContOk(t.history, vcont)
    ensures AfterVersion(vcont).Some? ==> ProcInv(t, AfterVersion(vcont).value)
  {
  }

  lemma PutVersionKeeps(s: Shared, read: C.ConfigVersion, next: C.ConfigVersion, vcont: VersionCont)
    requires SharedInv(s) && ProcInv(s, PuttingVersion(read, next, vcont))
    ensures TurnOk(s, Turn(s.(store := ReplaceVersion(s.store, next, read.revision).store), AfterVersion(vcont)))
  {
    var st := ReplaceVersion(s.store, next, read.revision).store;
    ReplaceKeepsStore(s.store, read, next);
    ReplaceKeepsVersions(s.store, read, next);
    RecordsIgnoreStore(s, st);
    ReferencesPersist(s, s.(store := st));
    WritingVersionKeeps(s, next, st);
    ContinueAfterVersion(s.(store := st), vcont);
  }

  lemma InsertKeeps(s: Shared, v: C.ConfigVersion)
    requires SharedInv(s) && ProcInv(s, InsertingVersion(v))
    ensures TurnOk(s, Turn(s.(store := InsertVersion(s.store, v).store), None))
  {
    var st := InsertVersion(s.store, v).store;
    InsertKeepsStore(s.store, v);
    InsertKeepsVersions(s.store, v);
    InsertLeavesNoGap(s.store, v);
    RecordsIgnoreStore(s, st);
    ReferencesPersist(s, s.(store := st));
    WritingVersionKeeps(s, v, st);
  }

  ghost predicate OnReleases(p: Proc) {
    p.CreatingRelease? || p.PuttingRelease? || p.GettingRelease? || p.GettingForRetry? || p.Assessing? || p.Listing?
    || p.Advancing?
  }

  lemma ReleaseCallKeeps(s: Shared, p: Proc, at: int, all: seq<Release>)
    requires SharedInv(s) && ProcInv(s, p) && OnReleases(p)
    ensures TurnOk(s, Call(s, p, at, all))
  {
    StoreKept(s.store);
    match p
    case PuttingRelease(read, next, cont) =>
      PutReleaseKeeps(s, read, next, cont);
      PutReleaseContinues(s, read, next, cont);
      PutKeepsReferences(s, read, next, cont);
    case CreatingRelease(draft, refs) =>
      CreateKeeps(s, draft, refs);
      CreateKeepsReferences(s, draft, refs);
    case GettingRelease(id, to, reason, token, cont) => GetReleaseKeeps(s, id, to, reason, token, cont, at);
    case _ => ReadingReleaseKeeps(s, p, at, all);
  }

  lemma VersionCallKeeps(s: Shared, p: Proc, at: int, all: seq<Release>)
    requires SharedInv(s) && ProcInv(s, p) && !OnReleases(p)
    ensures TurnOk(s, Call(s, p, at, all))
  {
    match p
    case PuttingVersion(read, next, vcont) => PutVersionKeeps(s, read, next, vcont);
    case InsertingVersion(v) => InsertKeeps(s, v);
    case _ =>
      StoreKept(s.store);
      VersionReadKeeps(s, p, at, all);
  }

  lemma VersionReadKeeps(s: Shared, p: Proc, at: int, all: seq<Release>)
    requires Numbered(s.store) && Gapless(s.store) && ProcInv(s, p)
    requires p.Rolling? || p.GettingVersion? || p.Numbering? || p.CheckingVersion?
    ensures var turn := Call(s, p, at, all); turn.shared == s && (turn.next.Some? ==> ProcInv(s, turn.next.value))
  {
    match p
    case Rolling(refs, from, to, owner, todo) => RollKeeps(s, refs, from, to, owner, todo);
    case GettingVersion(ref, to, expected, vcont) => GetVersionKeeps(s, ref, to, expected, vcont, at);
    case Numbering(v, valueOk, check) => NumberKeeps(s, v, valueOk, check);
    case CheckingVersion(v, check) => CheckKeeps(s, v, check);
  }

  /** Every repository call keeps the invariant and only ever adds to what is stored. */
  lemma CallKeeps(s: Shared, p: Proc, at: int, all: seq<Release>)
    requires SharedInv(s) && ProcInv(s, p)
    ensures TurnOk(s, Call(s, p, at, all))
  {
    if OnReleases(p) { ReleaseCallKeeps(s, p, at, all); } else { VersionCallKeeps(s, p, at, all); }
  }

  lemma OthersPersist(w: World, t: Shared, pids: set<nat>)
    requires Inv(w) && SharedInv(t) && Extends(w.shared, t) && pids <= w.procs.Keys
    ensures forall pid :: pid in pids ==> ProcInv(t, w.procs[pid])
  {
    forall pid | pid in pids ensures ProcInv(t, w.procs[pid]) {
      ProcPersists(w.shared, t, w.procs[pid]);
    }
  }

  lemma SpawnKeeps(w: World, pid: nat, p: Proc)
    requires Inv(w) && Entry(p)
    ensures ProcInv(w.shared, p)
  {
  }

  lemma ResumeKeeps(w: World, pid: nat, at: int, all: seq<Release>)
    requires Inv(w) && pid in w.procs
    ensures Inv(Step(w, Resume(pid, at, all))) && Extends(w.shared, Step(w, Resume(pid, at, all)).shared)
  {
    CallKeeps(w.shared, w.procs[pid], at, all);
    OthersPersist(w, Step(w, Resume(pid, at, all)).shared, w.procs.Keys - {pid});
  }

  lemma StepKeeps(w: World, a: Action)
    requires Inv(w)
    ensures Inv(Step(w, a)) && Extends(w.shared, Step(w, a).shared)
  {
    StoreKept(w.shared.store);
    match a
    case CreateConfiguration(c) =>
      if c.Valid() {
        ConfigurationKeeps(w.shared, c);
        OthersPersist(w, Step(w, a).shared, w.procs.Keys);
      }
    case Spawn(pid, p) =>
      if Entry(p) { SpawnKeeps(w, pid, p); }
    case Resume(pid, at, all) =>
      if pid in w.procs { ResumeKeeps(w, pid, at, all); }
  }

  lemma ConfigurationKeeps(s: Shared, c: C.Config)
    requires SharedInv(s) && c.Valid()
    ensures var t := s.(store := CreateConfig(s.store, c).store); SharedInv(t) && Extends(s, t)
  {
    var t := s.(store := CreateConfig(s.store, c).store);
    CreateKeepsIndex(s.store, c);
    CreateKeepsVersions(s.store, c);
    StoreKept(s.store);
    assert StoreGrows(s.store, t.store);
    ReferencesPersist(s, t);
    JustificationsPersist(s, t);
  }

  lemma ExecOneMore(actions: seq<Action>, a: Action)
    ensures Exec(actions + [a]) == Step(Exec(actions), a)
  {
    assert (actions + [a])[..|actions|] == actions;
  }

  /** Every reachable world satisfies the invariant. */
  lemma {:induction false} Reachable(actions: seq<Action>)
    ensures Inv(Exec(actions))
  {
    if actions != [] {
      Reachable(actions[..|actions| - 1]);
      StepKeeps(Exec(actions[..|actions| - 1]), actions[|actions| - 1]);
    }
  }
}
