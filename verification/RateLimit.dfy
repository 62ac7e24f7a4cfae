/** Token buckets and the per-key registry (internal/ratelimit). Time is in seconds, amounts are exact reals. */
module RateLimit {
  import opened Common

  datatype BucketState = BucketState(capacity: real, tokens: real, rate: real, last: real)

  ghost predicate Sane(b: BucketState) {
    b.capacity >= 1.0 && b.rate > 0.0 && 0.0 <= b.tokens <= b.capacity
  }

  /** A full bucket, or a configuration error. */
  function NewState(rate: real, burst: int, now: real): Result<BucketState> {
    if rate <= 0.0 then Err(InvalidConfig)
    else if burst < 1 then Err(InvalidConfig)
    else Ok(BucketState(burst as real, burst as real, rate, now))
  }

  /** The tokens a call finds: a clock that steps back adds nothing. */
  function Refilled(b: BucketState, now: real): real {
    var elapsed := if now - b.last < 0.0 then 0.0 else now - b.last;
    var tokens := b.tokens + elapsed * b.rate;
    if tokens > b.capacity then b.capacity else tokens
  }

  /** One call for n tokens; it succeeds exactly when they are there. */
  function Spend(b: BucketState, n: real, now: real): BucketState {
    var tokens := Refilled(b, now);
    b.(tokens := if tokens < n then tokens else tokens - n, last := now)
  }

  predicate Grants(b: BucketState, n: real, now: real) {
    Refilled(b, now) >= n
  }

  class Bucket {
    const capacity: real
    const refillPerSec: real
    var tokens: real
    var last: real

    ghost function State(): BucketState
      reads this
    {
      BucketState(capacity, tokens, refillPerSec, last)
    }

    constructor (rate: real, burst: int, now: real)
      requires rate > 0.0 && burst >= 1
      ensures NewState(rate, burst, now) == Ok(State())
    {
      capacity, tokens, refillPerSec, last := burst as real, burst as real, rate, now;
    }

    method Allow(n: real, now: real) returns (ok: bool)
      modifies this
      ensures State() == Spend(old(State()), n, now) && (ok <==> Grants(old(State()), n, now))
      ensures ok <==> n <= capacity && n <= old(tokens) + Inflow(refillPerSec, old(last), now)
      ensures tokens == Least(capacity, old(tokens) + Inflow(refillPerSec, old(last), now)) - (if ok then n else 0.0)
      ensures last == now
    {
      var elapsed := now - last;
      if elapsed < 0.0 {
        elapsed := 0.0;
      }
      tokens := tokens + elapsed * refillPerSec;
      if tokens > capacity {
        tokens := capacity;
      }
      last := now;
      if tokens < n {
        return false;
      }
      tokens := tokens - n;
      return true;
    }

    method Remaining(now: real) returns (left: real)
      ensures left == Least(capacity, tokens + Inflow(refillPerSec, last, now))
    {
      var elapsed := now - last;
      if elapsed < 0.0 {
        elapsed := 0.0;
      }
      left := tokens + elapsed * refillPerSec;
      if left > capacity {
        left := capacity;
      }
    }
  }

  // ------------------------------------------------------- sequences of calls

  /** The bucket after single-token calls at the given clock readings. */
  function After(b: BucketState, clock: seq<real>): BucketState {
    if clock == [] then b else Spend(After(b, clock[..|clock| - 1]), 1.0, clock[|clock| - 1])
  }

  function Granted(b: BucketState, clock: seq<real>): nat {
    if clock == [] then 0
    else
      var front := clock[..|clock| - 1];
      Granted(b, front) + if Grants(After(b, front), 1.0, clock[|clock| - 1]) then 1 else 0
  }

  /** The total forward movement of the clock; steps back do not count. */
  function Forward(start: real, clock: seq<real>): real {
    if clock == [] then 0.0
    else
      var n := |clock| - 1;
      var previous := if n == 0 then start else clock[n - 1];
      Forward(start, clock[..n]) + if clock[n] > previous then clock[n] - previous else 0.0
  }

  /** What flows into a bucket over an interval. */
  function Inflow(rate: real, from: real, to: real): real {
    (if to > from then to - from else 0.0) * rate
  }

  /** What flows in over a run, step by step. */
  function TotalInflow(rate: real, start: real, clock: seq<real>): real {
    if clock == [] then 0.0
    else
      var n := |clock| - 1;
      TotalInflow(rate, start, clock[..n]) + Inflow(rate, if n == 0 then start else clock[n - 1], clock[n])
  }

  lemma Distribute(x: real, y: real, z: real)
    ensures (x + y) * z == x * z + y * z
  {
  }

  lemma {:induction false} InflowFollowsTheClock(rate: real, start: real, clock: seq<real>)
    ensures TotalInflow(rate, start, clock) == Forward(start, clock) * rate
  {
    if clock != [] {
      var n := |clock| - 1;
      InflowFollowsTheClock(rate, start, clock[..n]);
      var previous := if n == 0 then start else clock[n - 1];
      Distribute(Forward(start, clock[..n]), if clock[n] > previous then clock[n] - previous else 0.0, rate);
    }
  }

  function Least(x: real, y: real): real {
    if x <= y then x else y
  }

  /** A call finds what was left and what has flowed in since, up to the capacity. */
  lemma RefilledIs(b: BucketState, now: real)
    ensures Refilled(b, now) == Least(b.capacity, b.tokens + Inflow(b.rate, b.last, now))
  {
  }

  /** A call is granted exactly when it fits into the capacity and enough was left or has flowed in. */
  lemma GrantedIffEnough(b: BucketState, n: real, now: real)
    ensures Grants(b, n, now) <==> n <= b.capacity && n <= b.tokens + Inflow(b.rate, b.last, now)
  {
    RefilledIs(b, now);
  }

  /** Over at least 1/rate seconds at least one token flows in. */
  lemma OnePerPeriod(rate: real, from: real, to: real)
    requires rate > 0.0 && to - from >= 1.0 / rate
    ensures Inflow(rate, from, to) >= 1.0
  {
    var period := 1.0 / rate;
    assert period * rate == 1.0;
    assert period > 0.0;
    assert (to - from - period) * rate >= 0.0;
  }

  /** Each reading comes at least 1/rate seconds after the one before it. */
  ghost predicate Spaced(rate: real, start: real, clock: seq<real>)
    requires rate > 0.0
  {
    forall k :: 0 <= k < |clock| ==> SpacedAt(rate, start, clock, k)
  }

  ghost predicate SpacedAt(rate: real, start: real, clock: seq<real>, k: int)
    requires rate > 0.0 && 0 <= k < |clock|
  {
    clock[k] - (if k == 0 then start else clock[k - 1]) >= 1.0 / rate
  }

  /** Calls that keep to the rate are all granted. */
  lemma {:induction false} SpacedCallsAreGranted(b: BucketState, clock: seq<real>)
    requires Sane(b) && Spaced(b.rate, b.last, clock)
    ensures Granted(b, clock) == |clock|
  {
    if clock != [] {
      var n := |clock| - 1;
      var front := clock[..n];
      forall k | 0 <= k < n ensures SpacedAt(b.rate, b.last, front, k) {
        assert SpacedAt(b.rate, b.last, clock, k);
      }
      SpacedCallsAreGranted(b, front);
      RunIsBounded(b, front);
      assert SpacedAt(b.rate, b.last, clock, n);
      OnePerPeriod(b.rate, After(b, front).last, clock[n]);
      GrantedIffEnough(After(b, front), 1.0, clock[n]);
    }
  }

  /** A new bucket grants exactly its burst while the clock stands still. */
  lemma {:induction false} FreshBucketGrantsItsBurst(rate: real, burst: int, at: real, k: nat)
    requires rate > 0.0 && burst >= 1
    ensures NewState(rate, burst, at).Ok?
    ensures var b, spent := NewState(rate, burst, at).value, if k <= burst then k else burst;
            && Granted(b, seq(k, _ => at)) == spent
            && After(b, seq(k, _ => at)) == b.(tokens := (burst - spent) as real)
  {
    var b, calls := NewState(rate, burst, at).value, seq(k, _ => at);
    if k > 0 {
      FreshBucketGrantsItsBurst(rate, burst, at, k - 1);
      assert calls[..k - 1] == seq(k - 1, _ => at);
      GrantedIffEnough(After(b, calls[..k - 1]), 1.0, at);
      RefilledIs(After(b, calls[..k - 1]), at);
    }
  }

  lemma SpendIsBounded(b: BucketState, now: real)
    requires Sane(b)
    ensures Sane(Spend(b, 1.0, now)) && Spend(b, 1.0, now) == b.(tokens := Spend(b, 1.0, now).tokens, last := now)
    ensures Spend(b, 1.0, now).tokens + (if Grants(b, 1.0, now) then 1.0 else 0.0)
         <= b.tokens + Inflow(b.rate, b.last, now)
  {
    var elapsed := if now - b.last < 0.0 then 0.0 else now - b.last;
    assert elapsed * b.rate >= 0.0;
  }

  /** Tokens stay within the capacity through every run. */
  lemma {:induction false} TokensStayInRange(b: BucketState, clock: seq<real>)
    requires Sane(b)
    ensures Sane(After(b, clock)) && After(b, clock).capacity == b.capacity && After(b, clock).rate == b.rate
  {
    if clock != [] {
      TokensStayInRange(b, clock[..|clock| - 1]);
      SpendIsBounded(After(b, clock[..|clock| - 1]), clock[|clock| - 1]);
    }
  }

  /** What was granted was there or has flowed in. */
  lemma {:induction false} RunIsBounded(b: BucketState, clock: seq<real>)
    requires Sane(b)
    ensures Sane(After(b, clock)) && After(b, clock).capacity == b.capacity && After(b, clock).rate == b.rate
    ensures After(b, clock).last == if clock == [] then b.last else clock[|clock| - 1]
    ensures Granted(b, clock) as real + After(b, clock).tokens <= b.tokens + TotalInflow(b.rate, b.last, clock)
  {
    if clock != [] {
      var n := |clock| - 1;
      RunIsBounded(b, clock[..n]);
      SpendIsBounded(After(b, clock[..n]), clock[n]);
    }
  }

  lemma {:induction false} AfterSplits(b: BucketState, clock: seq<real>, more: seq<real>)
    ensures After(b, clock + more) == After(After(b, clock), more)
    ensures Granted(b, clock + more) == Granted(b, clock) + Granted(After(b, clock), more)
  {
    if more == [] {
      assert clock + more == clock;
    } else {
      var n := |more| - 1;
      AfterSplits(b, clock, more[..n]);
      assert (clock + more)[..|clock| + n] == clock + more[..n];
    }
  }

  /** From any sane bucket on, grants are bounded by the capacity and what flows in. */
  lemma SegmentIsLimited(b: BucketState, clock: seq<real>)
    requires Sane(b)
    ensures Granted(b, clock) as real <= b.capacity + TotalInflow(b.rate, b.last, clock)
  {
    RunIsBounded(b, clock);
  }

  /**
   Between any two calls of any run, whatever the clock does, at most burst + inflow tokens are granted;
   by `InflowFollowsTheClock` the inflow is the rate times the forward movement of the clock.
   */
  lemma GrantsAreLimited(b: BucketState, clock: seq<real>, i: nat, j: nat)
    requires Sane(b) && i <= j <= |clock|
    ensures (Granted(b, clock[..j]) - Granted(b, clock[..i])) as real
         <= b.capacity + TotalInflow(b.rate, After(b, clock[..i]).last, clock[i..j])
  {
    var mid := After(b, clock[..i]);
    TokensStayInRange(b, clock[..i]);
    GrantsSplit(b, clock, i, j);
    SegmentIsLimited(mid, clock[i..j]);
  }

  /** At most the burst and what the rate yields while the clock moved forward. */
  ghost predicate WithinRate(granted: int, burst: real, moved: real, rate: real) {
    granted as real <= burst + moved * rate
  }

  lemma InflowWithinRate(granted: int, burst: real, last: real, part: seq<real>, rate: real)
    requires granted as real <= burst + TotalInflow(rate, last, part)
    ensures WithinRate(granted, burst, Forward(last, part), rate)
  {
    InflowFollowsTheClock(rate, last, part);
  }

  /** Between any two calls of any run grants are at most burst + rate * the forward movement of the clock. */
  lemma GrantsFollowTheClock(b: BucketState, clock: seq<real>, i: nat, j: nat)
    requires Sane(b) && i <= j <= |clock|
    ensures WithinRate(Granted(b, clock[..j]) - Granted(b, clock[..i]), b.capacity,
                       Forward(After(b, clock[..i]).last, clock[i..j]), b.rate)
  {
    GrantsAreLimited(b, clock, i, j);
    InflowWithinRate(Granted(b, clock[..j]) - Granted(b, clock[..i]), b.capacity,
                     After(b, clock[..i]).last, clock[i..j], b.rate);
  }

  lemma GrantsSplit(b: BucketState, clock: seq<real>, i: nat, j: nat)
    requires i <= j <= |clock|
    ensures Granted(b, clock[..j]) - Granted(b, clock[..i]) == Granted(After(b, clock[..i]), clock[i..j])
  {
    AfterSplits(b, clock[..i], clock[i..j]);
    assert clock[..i] + clock[i..j] == clock[..j];
  }

  // ----------------------------------------------------------- the registry

  /** `created` and `now` are the two clock readings of a call that finds no bucket. */
  datatype Call = Allow(key: string, created: real, now: real) | Reset(key: string)

  type Buckets = map<string, BucketState>

  datatype Answer = Answer(buckets: Buckets, ok: bool)

  /** The bucket a call for the key works on. */
  function BucketFor(m: Buckets, rate: real, burst: int, key: string, created: real): BucketState
    requires rate > 0.0 && burst >= 1
  {
    if key in m then m[key] else NewState(rate, burst, created).value
  }

  function Serve(m: Buckets, rate: real, burst: int, c: Call): Answer
    requires rate > 0.0 && burst >= 1
  {
    match c
    case Allow(key, created, now) =>
      var b := BucketFor(m, rate, burst, key, created);
      Answer(m[key := Spend(b, 1.0, now)], Grants(b, 1.0, now))
    case Reset(key) => Answer(m - {key}, key in m)
  }

  /** The answers to the calls for one key, and the buckets at the end. */
  function BucketsAfter(m: Buckets, rate: real, burst: int, calls: seq<Call>): Buckets
    requires rate > 0.0 && burst >= 1
  {
    if calls == [] then m
    else Serve(BucketsAfter(m, rate, burst, calls[..|calls| - 1]), rate, burst, calls[|calls| - 1]).buckets
  }

  function Answers(m: Buckets, rate: real, burst: int, calls: seq<Call>, key: string): seq<bool>
    requires rate > 0.0 && burst >= 1
  {
    if calls == [] then []
    else
      var front, last := calls[..|calls| - 1], calls[|calls| - 1];
      Answers(m, rate, burst, front, key)
      + if last.key == key then [Serve(BucketsAfter(m, rate, burst, front), rate, burst, last).ok] else []
  }

  function Only(calls: seq<Call>, key: string): seq<Call> {
    if calls == [] then []
    else
      Only(calls[..|calls| - 1], key) + if calls[|calls| - 1].key == key then [calls[|calls| - 1]] else []
  }

  /** Equal as far as the key is concerned. */
  ghost predicate AgreeOn(m: Buckets, n: Buckets, key: string) {
    (key in m <==> key in n) && (key in m ==> m[key] == n[key])
  }

  lemma ServeAgrees(m: Buckets, n: Buckets, rate: real, burst: int, c: Call, key: string)
    requires rate > 0.0 && burst >= 1 && AgreeOn(m, n, key)
    ensures c.key == key ==> Serve(m, rate, burst, c).ok == Serve(n, rate, burst, c).ok
    ensures c.key == key ==> AgreeOn(Serve(m, rate, burst, c).buckets, Serve(n, rate, burst, c).buckets, key)
    ensures c.key != key ==> AgreeOn(Serve(m, rate, burst, c).buckets, n, key)
  {
  }

  /** The answers for a key depend on that key's calls alone. */
  lemma {:induction false} KeysAreIndependent(
    m: Buckets, n: Buckets, rate: real, burst: int, calls: seq<Call>, key: string)
    requires rate > 0.0 && burst >= 1 && AgreeOn(m, n, key)
    ensures Answers(m, rate, burst, calls, key) == Answers(n, rate, burst, Only(calls, key), key)
    ensures AgreeOn(BucketsAfter(m, rate, burst, calls), BucketsAfter(n, rate, burst, Only(calls, key)), key)
  {
    if calls != [] {
      var front, last := calls[..|calls| - 1], calls[|calls| - 1];
      KeysAreIndependent(m, n, rate, burst, front, key);
      var own := Only(front, key);
      ServeAgrees(BucketsAfter(m, rate, burst, front), BucketsAfter(n, rate, burst, own), rate, burst, last, key);
      if last.key == key {
        assert (own + [last])[..|own|] == own;
      } else {
        assert Only(calls, key) == own;
      }
    }
  }

  // --------------------------------------- lookup and spending as two steps

  /** The buckets by identity, the bucket of each key, and the bucket each caller holds between its two locks. */
  datatype Pool = Pool(buckets: seq<BucketState>, index: map<string, nat>, held: map<nat, nat>)

  datatype PoolStep =
    | Lookup(caller: nat, key: string, created: real)
    | Use(caller: nat, now: real)
    | Forget(key: string)

  /** The caller uses bucket b. */
  predicate Uses(p: Pool, s: PoolStep, b: nat) {
    s.Use? && s.caller in p.held && p.held[s.caller] == b && b < |p.buckets|
  }

  function Do(p: Pool, rate: real, burst: int, s: PoolStep): Pool
    requires rate > 0.0 && burst >= 1
  {
    match s
    case Lookup(c, k, created) =>
      if k in p.index then p.(held := p.held[c := p.index[k]])
      else
        var b := |p.buckets|;
        Pool(p.buckets + [NewState(rate, burst, created).value], p.index[k := b], p.held[c := b])
    case Use(c, now) =>
      if c in p.held && p.held[c] < |p.buckets| then
        var b := p.held[c];
        p.(buckets := p.buckets[b := Spend(p.buckets[b], 1.0, now)], held := p.held - {c})
      else p
    case Forget(k) => p.(index := p.index - {k})
  }

  function PoolAfter(rate: real, burst: int, steps: seq<PoolStep>): Pool
    requires rate > 0.0 && burst >= 1
  {
    if steps == [] then Pool([], map[], map[])
    else Do(PoolAfter(rate, burst, steps[..|steps| - 1]), rate, burst, steps[|steps| - 1])
  }

  /** The clock readings of the calls that used bucket b. */
  function Readings(rate: real, burst: int, steps: seq<PoolStep>, b: nat): seq<real>
    requires rate > 0.0 && burst >= 1
  {
    if steps == [] then []
    else
      var front, last := steps[..|steps| - 1], steps[|steps| - 1];
      Readings(rate, burst, front, b) + if Uses(PoolAfter(rate, burst, front), last, b) then [last.now] else []
  }

  /** How many of them were granted. */
  function GrantsOf(rate: real, burst: int, steps: seq<PoolStep>, b: nat): nat
    requires rate > 0.0 && burst >= 1
  {
    if steps == [] then 0
    else
      var front, last := steps[..|steps| - 1], steps[|steps| - 1];
      var p := PoolAfter(rate, burst, front);
      GrantsOf(rate, burst, front, b)
      + if Uses(p, last, b) && Grants(p.buckets[b], 1.0, last.now) then 1 else 0
  }

  lemma {:induction false} UnusedBeforeItExists(rate: real, burst: int, steps: seq<PoolStep>, b: nat)
    requires rate > 0.0 && burst >= 1 && b >= |PoolAfter(rate, burst, steps).buckets|
    ensures Readings(rate, burst, steps, b) == [] && GrantsOf(rate, burst, steps, b) == 0
  {
    if steps != [] { UnusedBeforeItExists(rate, burst, steps[..|steps| - 1], b); }
  }

  /** When bucket b was created. */
  function Born(rate: real, burst: int, steps: seq<PoolStep>, b: nat): real
    requires rate > 0.0 && burst >= 1 && b < |PoolAfter(rate, burst, steps).buckets|
  {
    var front, last := steps[..|steps| - 1], steps[|steps| - 1];
    if b < |PoolAfter(rate, burst, front).buckets| then Born(rate, burst, front, b) else last.created
  }

  /** Bucket b as it was created: full. */
  function Fresh(rate: real, burst: int, steps: seq<PoolStep>, b: nat): BucketState
    requires rate > 0.0 && burst >= 1 && b < |PoolAfter(rate, burst, steps).buckets|
  {
    NewState(rate, burst, Born(rate, burst, steps, b)).value
  }

  /** Bucket b has lived through exactly its own readings since then. */
  ghost predicate LivedThrough(rate: real, burst: int, steps: seq<PoolStep>, b: nat)
    requires rate > 0.0 && burst >= 1 && b < |PoolAfter(rate, burst, steps).buckets|
  {
    var full, clock := Fresh(rate, burst, steps, b), Readings(rate, burst, steps, b);
    && PoolAfter(rate, burst, steps).buckets[b] == After(full, clock)
    && GrantsOf(rate, burst, steps, b) == Granted(full, clock)
  }

  lemma OneStepMore(rate: real, burst: int, steps: seq<PoolStep>, b: nat)
    requires rate > 0.0 && burst >= 1 && steps != []
    requires b < |PoolAfter(rate, burst, steps[..|steps| - 1]).buckets|
    requires LivedThrough(rate, burst, steps[..|steps| - 1], b)
    ensures b < |PoolAfter(rate, burst, steps).buckets| && LivedThrough(rate, burst, steps, b)
  {
    var front, last := steps[..|steps| - 1], steps[|steps| - 1];
    var clock := Readings(rate, burst, front, b);
    if Uses(PoolAfter(rate, burst, front), last, b) {
      assert (clock + [last.now])[..|clock|] == clock;
    } else {
      assert Readings(rate, burst, steps, b) == clock;
    }
  }

  /** Every bucket of every interleaving, in the index or forgotten, behaves as one with a single caller. */
  lemma {:induction false} EveryBucketLives(rate: real, burst: int, steps: seq<PoolStep>, b: nat)
    requires rate > 0.0 && burst >= 1 && b < |PoolAfter(rate, burst, steps).buckets|
    ensures LivedThrough(rate, burst, steps, b)
  {
    var front := steps[..|steps| - 1];
    if b < |PoolAfter(rate, burst, front).buckets| {
      EveryBucketLives(rate, burst, front, b);
      OneStepMore(rate, burst, steps, b);
    } else {
      UnusedBeforeItExists(rate, burst, front, b);
    }
  }

  lemma {:induction false} ReadingsGrow(rate: real, burst: int, steps: seq<PoolStep>, m: nat, b: nat)
    requires rate > 0.0 && burst >= 1 && m <= |steps|
    ensures Readings(rate, burst, steps[..m], b) <= Readings(rate, burst, steps, b)
    decreases |steps|
  {
    if m == |steps| {
      assert steps[..m] == steps;
    } else {
      var front := steps[..|steps| - 1];
      assert front[..m] == steps[..m];
      ReadingsGrow(rate, burst, front, m, b);
    }
  }

  /** The grants of a bucket up to any earlier step are those of its readings up to then. */
  lemma {:induction false} EarlierGrants(rate: real, burst: int, steps: seq<PoolStep>, m: nat, b: nat)
    requires rate > 0.0 && burst >= 1 && m <= |steps| && b < |PoolAfter(rate, burst, steps).buckets|
    ensures GrantsOf(rate, burst, steps[..m], b)
            == Granted(Fresh(rate, burst, steps, b), Readings(rate, burst, steps[..m], b))
    decreases |steps|
  {
    var front := steps[..|steps| - 1];
    if m == |steps| {
      assert steps[..m] == steps;
      EveryBucketLives(rate, burst, steps, b);
    } else if b < |PoolAfter(rate, burst, front).buckets| {
      assert front[..m] == steps[..m];
      EarlierGrants(rate, burst, front, m, b);
    } else {
      assert front[..m] == steps[..m];
      UnusedBeforeItExists(rate, burst, front, b);
      GrantsNeverFall(rate, burst, front, m, b);
      ReadingsGrow(rate, burst, front, m, b);
    }
  }

  lemma {:induction false} GrantsNeverFall(rate: real, burst: int, steps: seq<PoolStep>, m: nat, b: nat)
    requires rate > 0.0 && burst >= 1 && m <= |steps|
    ensures GrantsOf(rate, burst, steps[..m], b) <= GrantsOf(rate, burst, steps, b)
    decreases |steps|
  {
    if m == |steps| {
      assert steps[..m] == steps;
    } else {
      var front := steps[..|steps| - 1];
      assert front[..m] == steps[..m];
      GrantsNeverFall(rate, burst, front, m, b);
    }
  }

  /**
   Under every interleaving of lookups, spending and resets, between any two steps a bucket grants at
   most burst + rate * the forward movement of the clock over its own calls there.
   */
  lemma BucketGrantsAreLimited(rate: real, burst: int, steps: seq<PoolStep>, m: nat, b: nat)
    requires rate > 0.0 && burst >= 1 && m <= |steps| && b < |PoolAfter(rate, burst, steps).buckets|
    ensures var clock, i := Readings(rate, burst, steps, b), |Readings(rate, burst, steps[..m], b)|;
            && i <= |clock|
            && WithinRate(GrantsOf(rate, burst, steps, b) - GrantsOf(rate, burst, steps[..m], b), burst as real,
                          Forward(After(Fresh(rate, burst, steps, b), clock[..i]).last, clock[i..]), rate)
  {
    var full := Fresh(rate, burst, steps, b);
    var clock, i := Readings(rate, burst, steps, b), |Readings(rate, burst, steps[..m], b)|;
    ReadingsGrow(rate, burst, steps, m, b);
    EarlierGrants(rate, burst, steps, m, b);
    EveryBucketLives(rate, burst, steps, b);
    assert clock[..i] == Readings(rate, burst, steps[..m], b) && clock[..|clock|] == clock;
    assert clock[i..|clock|] == clock[i..];
    GrantsFollowTheClock(full, clock, i, |clock|);
  }

  /** Between two resets of a key all its lookups return the same bucket. */
  lemma {:induction false} LookupsShareOneBucket(rate: real, burst: int, steps: seq<PoolStep>, m: nat, key: string)
    requires rate > 0.0 && burst >= 1 && m <= |steps| && key in PoolAfter(rate, burst, steps[..m]).index
    requires forall k :: m <= k < |steps| ==> steps[k] != Forget(key)
    ensures key in PoolAfter(rate, burst, steps).index
    ensures PoolAfter(rate, burst, steps).index[key] == PoolAfter(rate, burst, steps[..m]).index[key]
    decreases |steps|
  {
    if m == |steps| {
      assert steps[..m] == steps;
    } else {
      var front := steps[..|steps| - 1];
      assert front[..m] == steps[..m];
      assert forall k :: m <= k < |front| ==> front[k] == steps[k];
      LookupsShareOneBucket(rate, burst, front, m, key);
      assert steps[|steps| - 1] != Forget(key);
    }
  }

  /** Bucket b is out of the index and nobody holds it. */
  ghost predicate Detached(p: Pool, b: nat) {
    && b < |p.buckets|
    && (forall k :: k in p.index ==> p.index[k] != b) && (forall c :: c in p.held ==> p.held[c] != b)
  }

  /** A reset with no caller between its lookup and its use is final: the forgotten bucket is never used again. */
  lemma {:induction false} DetachedIsNeverUsed(rate: real, burst: int, steps: seq<PoolStep>, m: nat, b: nat)
    requires rate > 0.0 && burst >= 1 && m <= |steps| && Detached(PoolAfter(rate, burst, steps[..m]), b)
    ensures Detached(PoolAfter(rate, burst, steps), b)
    ensures Readings(rate, burst, steps, b) == Readings(rate, burst, steps[..m], b)
    ensures GrantsOf(rate, burst, steps, b) == GrantsOf(rate, burst, steps[..m], b)
    decreases |steps|
  {
    if m == |steps| {
      assert steps[..m] == steps;
    } else {
      var front := steps[..|steps| - 1];
      assert front[..m] == steps[..m];
      DetachedIsNeverUsed(rate, burst, front, m, b);
    }
  }

  /**
   The bound is per bucket, not per key: a caller that looked its bucket up before a reset still spends
   from it afterwards. With a burst of 1 two calls are granted after the reset and the clock stands still.
   */
  lemma ForgottenBucketStillGrants(key: string, rate: real, at: real)
    requires rate > 0.0
    ensures var before := [Lookup(0, key, at), Forget(key), Lookup(1, key, at)];
            var p := PoolAfter(rate, 1, before);
            var q := PoolAfter(rate, 1, before + [Use(0, at)]);
            && Uses(p, Use(0, at), 0) && Grants(p.buckets[0], 1.0, at)
            && Uses(q, Use(1, at), 1) && Grants(q.buckets[1], 1.0, at)
  {
    var s1, s2 := [Lookup(0, key, at)], [Lookup(0, key, at), Forget(key)];
    var s3 := [Lookup(0, key, at), Forget(key), Lookup(1, key, at)];
    assert s1[..0] == [] && s2[..1] == s1 && s3[..2] == s2 && (s3 + [Use(0, at)])[..3] == s3;
    var full := NewState(rate, 1, at).value;
    assert PoolAfter(rate, 1, s1) == Pool([full], map[key := 0], map[0 := 0]);
    assert PoolAfter(rate, 1, s2) == Pool([full], map[], map[0 := 0]);
    assert PoolAfter(rate, 1, s3) == Pool([full, full], map[key := 1], map[0 := 0, 1 := 1]);
    assert Refilled(full, at) == 1.0;
  }

  class Registry {
    const rate: real
    const burst: int
    var buckets: map<string, Bucket>

    /** Every key has its own bucket. */
    ghost predicate Valid()
      reads this
    {
      && rate > 0.0 && burst >= 1
      && (forall k, l :: k in buckets && l in buckets && k != l ==> buckets[k] != buckets[l])
    }

    ghost function View(): Buckets
      reads this, buckets.Values
    {
      map k | k in buckets :: buckets[k].State()
    }

    constructor (rate: real, burst: int)
      requires rate > 0.0 && burst >= 1
      ensures Valid() && View() == map[] && this.rate == rate && this.burst == burst
    {
      this.rate, this.burst, buckets := rate, burst, map[];
    }

    /** The key's bucket, created full if there is none. */
    method BucketOf(key: string, created: real) returns (b: Bucket)
      requires Valid()
      modifies this
      ensures Valid() && key in buckets && buckets[key] == b
      ensures View() == old(View())[key := BucketFor(old(View()), rate, burst, key, created)]
      ensures b in old(buckets.Values) || fresh(b)
      ensures forall k :: k in buckets && k != key ==> k in old(buckets) && buckets[k] == old(buckets[k])
    {
      if key in buckets {
        b := buckets[key];
        assert View() == View()[key := b.State()];
      } else {
        b := new Bucket(rate, burst, created);
        buckets := buckets[key := b];
      }
    }

    /** Lookup and spending without interference. */
    method Allow(key: string, created: real, now: real) returns (ok: bool)
      requires Valid()
      modifies this, buckets.Values
      ensures Valid() && Answer(View(), ok) == Serve(old(View()), rate, burst, Call.Allow(key, created, now))
    {
      var b := BucketOf(key, created);
      ghost var mid := View();
      assert mid[key] == b.State();
      ok := b.Allow(1.0, now);
      assert View() == mid[key := b.State()];
    }

    method Reset(key: string) returns (known: bool)
      requires Valid()
      modifies this
      ensures Valid() && Answer(View(), known) == Serve(old(View()), rate, burst, Call.Reset(key))
    {
      if key !in buckets {
        assert View() == View() - {key};
        return false;
      }
      buckets := buckets - {key};
      return true;
    }
  }

  /** The first call for an unknown key is granted; a reset makes the key unknown. */
  lemma UnknownKeyIsServed(m: Buckets, rate: real, burst: int, key: string, created: real, now: real)
    requires rate > 0.0 && burst >= 1
    ensures key !in m ==> Serve(m, rate, burst, Call.Allow(key, created, now)).ok
    ensures key !in Serve(m, rate, burst, Call.Reset(key)).buckets
    ensures Serve(m, rate, burst, Call.Reset(key)).ok <==> key in m
  {
    if key !in m {
      GrantedIffEnough(NewState(rate, burst, created).value, 1.0, now);
      InflowIsNotNegative(rate, created, now);
    }
  }

  lemma InflowIsNotNegative(rate: real, from: real, to: real)
    requires rate > 0.0
    ensures Inflow(rate, from, to) >= 0.0
  {
  }
}
