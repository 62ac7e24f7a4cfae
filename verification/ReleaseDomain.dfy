/** Release records, their state machine and wave plan (internal/releasedomain/model.go). */
module ReleaseDomain {
  import opened Common

  datatype State = Pending | Running | Paused | Succeeded | Failed | RolledBack | Cancelled | Retrying

  datatype Wave = Wave(number: int, percentage: int, maxFailureRate: real, minimumDuration: int)

  datatype HealthGate = HealthGate(samples: int, failures: int)

  datatype Release = Release(
    id: string, scope: string, versionRefs: seq<VersionRef>, waves: seq<Wave>,
    state: State, currentWave: int, fencingToken: int, idempotencyKey: string,
    createdAt: int, updatedAt: int, pausedReason: string, rollbackReason: string, revision: int)
  {
    predicate Can(to: State) {
      match state
      case Pending => to in {Running, Cancelled}
      case Running => to in {Paused, Succeeded, Failed, RolledBack}
      case Paused => to in {Running, Cancelled, RolledBack}
      case Succeeded => to == RolledBack
      case Failed => to in {State.Retrying, RolledBack}
      case RolledBack => false
      case Cancelled => false
      case Retrying => to in {Running, Cancelled}
    }

    /** The checked, fenced state change; the token test comes before the state test. */
    function Transition(to: State, token: int, now: int): Result<Release> {
      if token <= fencingToken then Err(BadTransition)
      else if !Can(to) then Err(BadTransition)
      else Ok(this.(state := to, fencingToken := token, revision := revision + 1, updatedAt := now))
    }

    /** The whole plan has been walked: no wave follows the current one. */
    predicate LastWave() {
      currentWave + 1 >= |waves|
    }

    /** None where the source would panic: a negative wave index is used unchecked. */
    function ShouldPause(gate: HealthGate): Option<bool> {
      if currentWave >= |waves| then Some(false)
      else if currentWave < 0 then None
      else Some(FailureRate(gate) > waves[currentWave].maxFailureRate)
    }
  }

  /** Where a release may be when a caller asks for the given state, target by target. */
  predicate Admits(from: State, to: State) {
    match to
    case Pending => false
    case Running => from == Pending || from == Paused || from == Retrying
    case Paused => from == Running
    case Succeeded => from == Running
    case Failed => from == Running
    case RolledBack => from == Running || from == Paused || from == Succeeded || from == Failed
    case Cancelled => from == Pending || from == Paused || from == Retrying
    case Retrying => from == Failed
  }

  /** The state machine by source and the one by target are the same. */
  lemma CanIffAdmitted(r: Release, to: State)
    ensures r.Can(to) <==> Admits(r.state, to)
  {
  }

  /** What each kind of caller gets: a fresh token and the right state, or nothing. */
  lemma AcceptedByTarget(r: Release, token: int, now: int)
    ensures r.Transition(RolledBack, token, now).Ok? <==>
            token > r.fencingToken && r.state in {Running, Paused, Succeeded, Failed}
    ensures r.Transition(Paused, token, now).Ok? <==> token > r.fencingToken && r.state == Running
    ensures r.Transition(Running, token, now).Ok? <==>
            token > r.fencingToken && r.state in {Pending, Paused, Retrying}
    ensures r.Transition(Cancelled, token, now).Ok? <==>
            token > r.fencingToken && r.state in {Pending, Paused, Retrying}
    ensures r.Transition(Failed, token, now).Ok? <==> token > r.fencingToken && r.state == Running
    ensures r.Transition(Succeeded, token, now).Ok? <==> token > r.fencingToken && r.state == Running
    ensures r.Transition(State.Retrying, token, now).Ok? <==> token > r.fencingToken && r.state == Failed
    ensures r.Transition(Pending, token, now).Err?
  {
  }

  /** The reason a transition records: pauses and rollbacks keep theirs. */
  function WithReason(r: Release, to: State, reason: string): Release {
    if to == Paused then r.(pausedReason := reason)
    else if to == RolledBack then r.(rollbackReason := reason)
    else r
  }

  function FailureRate(gate: HealthGate): real {
    if gate.samples == 0 then 0.0 else gate.failures as real / gate.samples as real
  }

  /** The running release has more failures among its samples than its current wave allows. */
  predicate Failing(r: Release, gate: HealthGate) {
    && r.state == Running && 0 <= r.currentWave < |r.waves|
    && FailureRate(gate) > r.waves[r.currentWave].maxFailureRate
  }

  /** Without division: more failures than the limit's share of the samples. */
  lemma FailingIff(r: Release, gate: HealthGate)
    requires gate.samples >= 1
    ensures Failing(r, gate) <==>
            && r.state == Running && 0 <= r.currentWave < |r.waves|
            && gate.failures as real > r.waves[r.currentWave].maxFailureRate * gate.samples as real
  {
    if 0 <= r.currentWave < |r.waves| {
      ShareAbove(gate.failures as real, gate.samples as real, r.waves[r.currentWave].maxFailureRate);
    }
  }

  lemma ShareAbove(failures: real, samples: real, limit: real)
    requires samples > 0.0
    ensures failures / samples > limit <==> failures > limit * samples
  {
    var share := failures / samples;
    assert share * samples == failures;
    if share > limit {
      assert (share - limit) * samples > 0.0;
    } else {
      assert (limit - share) * samples >= 0.0;
    }
  }

  // ---------------------------------------------------------------- histories

  /** A wave advance: one wave on, one revision on, everything else kept. */
  ghost predicate AdvancesWave(a: Release, b: Release) {
    && a.state == Running
    && !a.LastWave()
    && b == a.(currentWave := a.currentWave + 1, revision := a.revision + 1, updatedAt := b.updatedAt)
  }

  /** A legal state change under a larger token; waves and references are kept. */
  ghost predicate ChangesState(a: Release, b: Release) {
    && a.Can(b.state)
    && a.fencingToken < b.fencingToken
    && b == a.(state := b.state, fencingToken := b.fencingToken, revision := a.revision + 1,
               updatedAt := b.updatedAt, pausedReason := b.pausedReason, rollbackReason := b.rollbackReason)
  }

  /** The state change asked for, under the token and at the time given, with its reason. */
  ghost predicate Carries(a: Release, b: Release, to: State, reason: string, token: int, at: int) {
    && ChangesState(a, b) && b.state == to && b.fencingToken == token && b.updatedAt == at
    && b.pausedReason == (if to == Paused then reason else a.pausedReason)
    && b.rollbackReason == (if to == RolledBack then reason else a.rollbackReason)
  }

  ghost predicate Evolves(a: Release, b: Release) {
    AdvancesWave(a, b) || ChangesState(a, b)
  }

  ghost predicate StepAt(h: seq<Release>, i: int) {
    0 < i < |h| ==> Evolves(h[i - 1], h[i])
  }

  /** Every record ever stored for one release, oldest first; the record at index i has revision i+1. */
  ghost predicate Chronicle(h: seq<Release>) {
    && h != []
    && h[0].state == Pending
    && (forall i :: 0 <= i < |h| ==> h[i].revision == i + 1)
    && (forall i :: 0 < i < |h| ==> StepAt(h, i))
  }

  /** What never changes and what never goes down along a history. */
  lemma {:induction false} ChronicleIsMonotone(h: seq<Release>, i: int, j: int)
    requires Chronicle(h) && 0 <= i <= j < |h|
    ensures h[i].id == h[j].id && h[i].waves == h[j].waves && h[i].versionRefs == h[j].versionRefs
    ensures h[i].idempotencyKey == h[j].idempotencyKey && h[i].createdAt == h[j].createdAt
    ensures h[i].currentWave <= h[j].currentWave
    ensures h[i].fencingToken <= h[j].fencingToken
    ensures h[i].fencingToken == h[j].fencingToken ==> h[i].state == h[j].state
    decreases j - i
  {
    if i < j {
      ChronicleIsMonotone(h, i, j - 1);
      assert StepAt(h, j);
    }
  }

  /** A token value is accepted at most once: two state changes never carry the same token. */
  lemma TokensAreNeverReused(h: seq<Release>, i: int, j: int)
    requires Chronicle(h) && 0 < i < j < |h|
    requires h[i - 1].state != h[i].state && h[j - 1].state != h[j].state
    ensures h[i - 1].fencingToken < h[i].fencingToken < h[j].fencingToken
  {
    assert StepAt(h, i) && StepAt(h, j);
    ChronicleIsMonotone(h, i, j - 1);
  }

  /** Each stored step is a path edge of `Can` under a new token, or a wave step while running. */
  lemma EveryStepIsLegal(h: seq<Release>, i: int)
    requires Chronicle(h) && 0 < i < |h|
    ensures h[i - 1].state != h[i].state <==> h[i - 1].fencingToken < h[i].fencingToken
    ensures h[i - 1].state != h[i].state ==> h[i - 1].Can(h[i].state)
    ensures h[i - 1].currentWave != h[i].currentWave ==>
              h[i - 1].state == h[i].state == Running && h[i].currentWave == h[i - 1].currentWave + 1
    ensures h[i - 1].state == h[i].state ==> h[i].currentWave == h[i - 1].currentWave + 1
  {
    assert StepAt(h, i);
  }

  /** Rolled-back and cancelled releases are never written again. */
  lemma TerminalStatesAreFinal(h: seq<Release>, i: int)
    requires Chronicle(h) && 0 <= i < |h| && h[i].state in {RolledBack, Cancelled}
    ensures i == |h| - 1
  {
    assert i + 1 < |h| ==> StepAt(h, i + 1);
  }

  /** A success is the last record or is followed by exactly one record, its rollback. */
  lemma SuccessIsOnlyRolledBack(h: seq<Release>, i: int)
    requires Chronicle(h) && 0 <= i < |h| && h[i].state == Succeeded
    ensures i == |h| - 1 || (i == |h| - 2 && h[|h| - 1].state == RolledBack)
  {
    if i + 1 < |h| {
      assert StepAt(h, i + 1);
      TerminalStatesAreFinal(h, i + 1);
    }
  }

  /** A legal successor of the newest record extends the history. */
  lemma ChronicleGrows(h: seq<Release>, next: Release)
    requires Chronicle(h) && Evolves(h[|h| - 1], next)
    ensures Chronicle(h + [next])
  {
    var g := h + [next];
    forall i | 0 < i < |g| ensures StepAt(g, i) {
      if i < |h| { assert StepAt(h, i); }
    }
  }

  // -------------------------------------------------------------- wave plan

  predicate ValidWave(w: Wave) {
    w.number >= 1 && 1 <= w.percentage <= 100 && 0.0 <= w.maxFailureRate <= 1.0
  }

  function Total(waves: seq<Wave>): int {
    if waves == [] then 0 else Total(waves[..|waves| - 1]) + waves[|waves| - 1].percentage
  }

  /** What `Release.Validate` accepts. */
  predicate ValidRelease(r: Release) {
    && r.id != "" && r.scope != "" && r.versionRefs != [] && r.waves != []
    && (forall i :: 0 <= i < |r.waves| ==> ValidWave(r.waves[i]))
    && Total(r.waves) == 100
  }

  /** What makes a wave unacceptable, fault by fault. */
  predicate BadWave(w: Wave) {
    w.number <= 0 || w.percentage <= 0 || w.percentage > 100 || w.maxFailureRate < 0.0 || w.maxFailureRate > 1.0
  }

  function SharesFrom(waves: seq<Wave>, i: nat): int
    requires i <= |waves|
    decreases |waves| - i
  {
    if i == |waves| then 0 else waves[i].percentage + SharesFrom(waves, i + 1)
  }

  lemma {:induction false} TotalIsTheSum(waves: seq<Wave>, i: nat)
    requires i <= |waves|
    ensures Total(waves) == Total(waves[..i]) + SharesFrom(waves, i)
    decreases |waves| - i
  {
    if i < |waves| {
      TotalIsTheSum(waves, i + 1);
      assert waves[..i + 1][..i] == waves[..i];
    } else {
      assert waves[..i] == waves;
    }
  }

  /** A release is valid exactly when nothing is missing, no wave is bad and the shares add up to 100. */
  lemma ValidIffNoFault(r: Release)
    ensures ValidRelease(r) <==>
            !(|| r.id == "" || r.scope == "" || |r.versionRefs| == 0 || |r.waves| == 0
              || (exists i :: 0 <= i < |r.waves| && BadWave(r.waves[i]))
              || SharesFrom(r.waves, 0) != 100)
  {
    TotalIsTheSum(r.waves, 0);
    assert r.waves[..0] == [];
  }

  /** A plan that was accepted never pauses on a gate without failures. */
  lemma NoFailuresNeverPause(r: Release, gate: HealthGate)
    requires ValidRelease(r) && gate.samples >= 1 && gate.failures == 0
    ensures !Failing(r, gate)
  {
    FailingIff(r, gate);
    if 0 <= r.currentWave < |r.waves| {
      assert ValidWave(r.waves[r.currentWave]);
      assert r.waves[r.currentWave].maxFailureRate * gate.samples as real >= 0.0;
    }
  }

  method Validate(r: Release) returns (ok: bool)
    ensures ok <==> ValidRelease(r)
  {
    if r.id == "" || r.scope == "" || |r.versionRefs| == 0 || |r.waves| == 0 {
      return false;
    }
    var total := 0;
    for i := 0 to |r.waves|
      invariant total == Total(r.waves[..i])
      invariant forall k :: 0 <= k < i ==> ValidWave(r.waves[k])
    {
      if !ValidWave(r.waves[i]) {
        return false;
      }
      total := total + r.waves[i].percentage;
      assert r.waves[..i + 1][..i] == r.waves[..i];
    }
    assert r.waves[..|r.waves|] == r.waves;
    return total == 100;
  }

  /** The first wave at or after `from` whose cumulative share exceeds the percentile, else the last. */
  function WaveFrom(waves: seq<Wave>, percent: int, from: nat): int
    requires from <= |waves|
    decreases |waves| - from
  {
    if from == |waves| then |waves| - 1
    else if percent < Total(waves[..from + 1]) then from
    else WaveFrom(waves, percent, from + 1)
  }

  method WaveForPercent(r: Release, percent: int) returns (wave: int)
    ensures wave == WaveFrom(r.waves, percent, 0)
  {
    var total := 0;
    for i := 0 to |r.waves|
      invariant total == Total(r.waves[..i])
      invariant WaveFrom(r.waves, percent, 0) == WaveFrom(r.waves, percent, i)
    {
      total := total + r.waves[i].percentage;
      assert r.waves[..i + 1][..i] == r.waves[..i];
      if percent < total {
        return i;
      }
    }
    return |r.waves| - 1;
  }

  lemma {:induction false} TotalsAscend(waves: seq<Wave>, i: int, j: int)
    requires 0 <= i <= j <= |waves|
    requires forall k :: 0 <= k < |waves| ==> ValidWave(waves[k])
    ensures Total(waves[..i]) + (j - i) <= Total(waves[..j])
    decreases j - i
  {
    if i < j {
      TotalsAscend(waves, i, j - 1);
      assert waves[..j][..j - 1] == waves[..j - 1];
    }
  }

  lemma {:induction false} WaveFromIsFirst(waves: seq<Wave>, percent: int, from: nat)
    requires from < |waves| && percent < Total(waves)
    requires forall k :: 0 <= k < |waves| ==> ValidWave(waves[k])
    requires Total(waves[..from]) <= percent
    ensures var w := WaveFrom(waves, percent, from);
            from <= w < |waves| && Total(waves[..w]) <= percent < Total(waves[..w + 1])
    decreases |waves| - from
  {
    assert waves[..|waves|] == waves;
    if percent >= Total(waves[..from + 1]) {
      WaveFromIsFirst(waves, percent, from + 1);
    }
  }

  /** Wave i owns exactly the percentiles between its cumulative bounds. */
  lemma WaveOwnsItsInterval(r: Release, percent: int, i: int)
    requires ValidRelease(r) && 0 <= percent < 100 && 0 <= i < |r.waves|
    ensures WaveFrom(r.waves, percent, 0) == i <==> Total(r.waves[..i]) <= percent < Total(r.waves[..i + 1])
  {
    WaveFromIsFirst(r.waves, percent, 0);
    var w := WaveFrom(r.waves, percent, 0);
    if w < i {
      TotalsAscend(r.waves, w + 1, i);
    } else if i < w {
      TotalsAscend(r.waves, i + 1, w);
    }
  }

  /** A larger percentile never lands in an earlier wave. */
  lemma WavesAreMonotone(r: Release, p: int, q: int)
    requires ValidRelease(r) && 0 <= p <= q < 100
    ensures 0 <= WaveFrom(r.waves, p, 0) <= WaveFrom(r.waves, q, 0) < |r.waves|
  {
    WaveFromIsFirst(r.waves, p, 0);
    WaveFromIsFirst(r.waves, q, 0);
    var a, b := WaveFrom(r.waves, p, 0), WaveFrom(r.waves, q, 0);
    if b < a {
      TotalsAscend(r.waves, b + 1, a);
    }
  }

  ghost function Interval(lo: int, hi: int): (s: set<int>)
    requires lo <= hi
    ensures |s| == hi - lo
    ensures forall p :: p in s <==> lo <= p < hi
    decreases hi - lo
  {
    if lo == hi then {} else Interval(lo, hi - 1) + {hi - 1}
  }

  ghost function PercentilesOf(r: Release, i: int): set<int> {
    set p | 0 <= p < 100 && WaveFrom(r.waves, p, 0) == i
  }

  /** The waves partition 0..99: exactly `percentage` percentiles map to each wave. */
  lemma WavesPartitionPercentiles(r: Release, i: int)
    requires ValidRelease(r) && 0 <= i < |r.waves|
    ensures |PercentilesOf(r, i)| == r.waves[i].percentage
  {
    var lo, hi := Total(r.waves[..i]), Total(r.waves[..i + 1]);
    assert r.waves[..i + 1][..i] == r.waves[..i];
    TotalsAscend(r.waves, 0, i);
    TotalsAscend(r.waves, i + 1, |r.waves|);
    assert r.waves[..|r.waves|] == r.waves;
    forall p | 0 <= p < 100
      ensures WaveFrom(r.waves, p, 0) == i <==> lo <= p < hi
    {
      WaveOwnsItsInterval(r, p, i);
    }
    assert PercentilesOf(r, i) == Interval(lo, hi);
  }
}
