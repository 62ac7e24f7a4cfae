/** The sliding observation window and its health verdict (internal/releasedomain/analytics.go). */
module HealthWindow {
  import opened Common
  import Sorting

  /** Latency and time in nanoseconds; time 0 stands for the unset time. */
  datatype Observation = Observation(releaseID: string, tenantID: string, success: bool, latency: int, at: int)

  predicate IsSpace(c: char) {
    var n := c as int;
    || 9 <= n <= 13 || n == 32 || n == 0x85 || n == 0xA0 || n == 0x1680 || 0x2000 <= n <= 0x200A
    || n == 0x2028 || n == 0x2029 || n == 0x202F || n == 0x205F || n == 0x3000
  }

  /** Nothing is left after trimming white space. */
  predicate Blank(s: string) {
    forall i :: 0 <= i < |s| ==> IsSpace(s[i])
  }

  predicate Acceptable(o: Observation) {
    !Blank(o.releaseID) && !Blank(o.tenantID) && o.latency >= 0 && o.at != 0
  }

  /** An observation is refused exactly for a name of white space only, a negative latency or a missing time. */
  lemma RefusedIff(o: Observation)
    ensures Acceptable(o) <==>
            && (exists i :: 0 <= i < |o.releaseID| && !IsSpace(o.releaseID[i]))
            && (exists i :: 0 <= i < |o.tenantID| && !IsSpace(o.tenantID[i]))
            && !(o.latency < 0) && !(o.at == 0)
  {
  }

  /** Blanks, tabs and line ends are white space; letters, digits and punctuation are not. */
  lemma WhiteSpace(c: char)
    ensures IsSpace(' ') && IsSpace('\t') && IsSpace('\n') && IsSpace('\r')
    ensures '!' <= c <= '~' ==> !IsSpace(c)
  {
  }

  // ---------------------------------------------------------- the buffer

  /** One recorded observation: the oldest makes room when the window is full. */
  function Push(s: seq<Observation>, o: Observation, max: nat): seq<Observation> {
    if |s| >= max && s != [] then s[1..] + [o] else s + [o]
  }

  /** The window after a sequence of `Record` calls; unacceptable observations are refused. */
  function Recorded(calls: seq<Observation>, max: nat): seq<Observation> {
    if calls == [] then []
    else
      var front, o := calls[..|calls| - 1], calls[|calls| - 1];
      if Acceptable(o) then Push(Recorded(front, max), o, max) else Recorded(front, max)
  }

  function Accepted(calls: seq<Observation>): seq<Observation> {
    if calls == [] then []
    else
      var o := calls[|calls| - 1];
      Accepted(calls[..|calls| - 1]) + (if Acceptable(o) then [o] else [])
  }

  function Last(s: seq<Observation>, n: nat): seq<Observation> {
    if |s| <= n then s else s[|s| - n..]
  }

  /** The window holds exactly the last `max` accepted observations, in order. */
  lemma {:induction false} WindowHoldsTheLatest(calls: seq<Observation>, max: nat)
    requires max >= 1
    ensures Recorded(calls, max) == Last(Accepted(calls), max)
  {
    if calls != [] {
      var front, o := calls[..|calls| - 1], calls[|calls| - 1];
      WindowHoldsTheLatest(front, max);
      PushKeepsTheLatest(Accepted(front), o, max);
    }
  }

  lemma PushKeepsTheLatest(s: seq<Observation>, o: Observation, max: nat)
    requires max >= 1
    ensures Push(Last(s, max), o, max) == Last(s + [o], max)
  {
    if |s| >= max {
      assert Last(s, max)[1..] == s[|s| - max + 1..];
      assert (s + [o])[|s| + 1 - max..] == s[|s| - max + 1..] + [o];
    }
  }

  // ---------------------------------------------------------- the verdict

  /** The bounds of the error rate: closed at the cutoff. */
  predicate Counted(o: Observation, release: string, cutoff: int, now: int) {
    o.releaseID == release && cutoff <= o.at <= now
  }

  /** The bounds of the latency: open at the cutoff. */
  predicate Timed(o: Observation, release: string, cutoff: int, now: int) {
    o.releaseID == release && cutoff < o.at <= now
  }

  function Samples(s: seq<Observation>, release: string, cutoff: int, now: int): nat {
    if s == [] then 0
    else Samples(s[..|s| - 1], release, cutoff, now) + if Counted(s[|s| - 1], release, cutoff, now) then 1 else 0
  }

  function Failures(s: seq<Observation>, release: string, cutoff: int, now: int): nat {
    if s == [] then 0
    else
      Failures(s[..|s| - 1], release, cutoff, now)
      + if Counted(s[|s| - 1], release, cutoff, now) && !s[|s| - 1].success then 1 else 0
  }

  function Latencies(s: seq<Observation>, release: string, cutoff: int, now: int): seq<int> {
    if s == [] then []
    else
      Latencies(s[..|s| - 1], release, cutoff, now)
      + (if Timed(s[|s| - 1], release, cutoff, now) then [s[|s| - 1].latency] else [])
  }

  /** Timed observations are counted ones, so latencies are never more than samples. */
  lemma {:induction false} LatenciesAreSamples(s: seq<Observation>, release: string, cutoff: int, now: int)
    ensures |Latencies(s, release, cutoff, now)| <= Samples(s, release, cutoff, now)
    ensures Failures(s, release, cutoff, now) <= Samples(s, release, cutoff, now)
  {
    if s != [] { LatenciesAreSamples(s[..|s| - 1], release, cutoff, now); }
  }

  /** There are samples but no latencies exactly when every sample lies on the cutoff itself. */
  lemma {:induction false} NoLatenciesIffAllOnCutoff(s: seq<Observation>, release: string, cutoff: int, now: int)
    ensures Latencies(s, release, cutoff, now) == [] <==>
            forall i :: 0 <= i < |s| && Counted(s[i], release, cutoff, now) ==> s[i].at == cutoff
    ensures Samples(s, release, cutoff, now) > 0 <==> exists i :: 0 <= i < |s| && Counted(s[i], release, cutoff, now)
  {
    if s != [] {
      var n := |s| - 1;
      NoLatenciesIffAllOnCutoff(s[..n], release, cutoff, now);
      assert forall i :: 0 <= i < n ==> s[..n][i] == s[i];
    }
  }

  /** The positions of the observations with the given property. */
  ghost function Where(s: seq<Observation>, f: Observation -> bool): set<nat> {
    set i: nat | i < |s| && f(s[i])
  }

  lemma WhereGrows(s: seq<Observation>, f: Observation -> bool)
    requires s != []
    ensures |Where(s, f)| == |Where(s[..|s| - 1], f)| + if f(s[|s| - 1]) then 1 else 0
  {
    var n := |s| - 1;
    assert forall i :: 0 <= i < n ==> s[..n][i] == s[i];
    assert Where(s, f) == Where(s[..n], f) + if f(s[n]) then {n} else {};
  }

  /** Of the release and between the bounds, both included. */
  function Within(release: string, cutoff: int, now: int): Observation -> bool {
    (o: Observation) => o.releaseID == release && cutoff <= o.at && o.at <= now
  }

  function FailedWithin(release: string, cutoff: int, now: int): Observation -> bool {
    (o: Observation) => o.releaseID == release && cutoff <= o.at && o.at <= now && !o.success
  }

  function StrictlyWithin(release: string, cutoff: int, now: int): Observation -> bool {
    (o: Observation) => o.releaseID == release && cutoff < o.at && o.at <= now
  }

  /** Samples, failures and latencies are counts of the observations between the bounds, the last strictly. */
  lemma {:induction false} CountsAreCardinalities(s: seq<Observation>, release: string, cutoff: int, now: int)
    ensures Samples(s, release, cutoff, now) == |Where(s, Within(release, cutoff, now))|
    ensures Failures(s, release, cutoff, now) == |Where(s, FailedWithin(release, cutoff, now))|
    ensures |Latencies(s, release, cutoff, now)| == |Where(s, StrictlyWithin(release, cutoff, now))|
  {
    if s != [] {
      CountsAreCardinalities(s[..|s| - 1], release, cutoff, now);
      WhereGrows(s, Within(release, cutoff, now));
      WhereGrows(s, FailedWithin(release, cutoff, now));
      WhereGrows(s, StrictlyWithin(release, cutoff, now));
    } else {
      assert forall f :: Where(s, f) == {};
    }
  }

  /** The latencies are those of the observations strictly after the cutoff. */
  lemma {:induction false} LatenciesAreObserved(s: seq<Observation>, release: string, cutoff: int, now: int, x: int)
    ensures x in Latencies(s, release, cutoff, now) <==>
            exists i :: 0 <= i < |s| && s[i].releaseID == release && cutoff < s[i].at <= now && s[i].latency == x
  {
    if s != [] {
      var n := |s| - 1;
      LatenciesAreObserved(s[..n], release, cutoff, now, x);
      assert forall i :: 0 <= i < n ==> s[..n][i] == s[i];
      if i :| 0 <= i < |s| && s[i].releaseID == release && cutoff < s[i].at <= now && s[i].latency == x {
        assert i < n ==> s[..n][i] == s[i];
      }
    }
  }

  /** Any acceptable observation alone in the window, evaluated with the cutoff on it, is counted but not timed. */
  lemma SampleOnCutoffIsNotTimed(o: Observation, now: int)
    requires Acceptable(o) && o.at <= now
    ensures Recorded([o], 100) == [o]
    ensures Samples([o], o.releaseID, o.at, now) == 1 && Latencies([o], o.releaseID, o.at, now) == []
  {
    assert [o][..0] == [];
    assert Recorded([], 100) == [] && Samples([], o.releaseID, o.at, now) == 0;
    assert Latencies([], o.releaseID, o.at, now) == [];
  }

  // ------------------------------------------------------------- ranks

  function Smaller(a: int, b: int): bool {
    a < b
  }

  function Sorted(s: seq<int>): (r: seq<int>)
    ensures multiset(r) == multiset(s) && |r| == |s|
  {
    Sorting.Sort(s, Smaller)
  }

  ghost predicate Ascending(s: seq<int>) {
    forall i, j :: 0 <= i < j < |s| ==> s[i] <= s[j]
  }

  lemma SortedAscends(s: seq<int>)
    ensures Ascending(Sorted(s))
  {
    Sorting.SortIsInOrder(s, Smaller);
    forall i, j | 0 <= i < j < |s| ensures Sorted(s)[i] <= Sorted(s)[j] {
      assert !Smaller(Sorted(s)[j], Sorted(s)[i]);
    }
  }

  function CountBelow(s: seq<int>, x: int): nat {
    if s == [] then 0 else (if s[0] < x then 1 else 0) + CountBelow(s[1..], x)
  }

  function CountUpTo(s: seq<int>, x: int): nat {
    if s == [] then 0 else (if s[0] <= x then 1 else 0) + CountUpTo(s[1..], x)
  }

  lemma {:induction false} InsertCounts(y: int, s: seq<int>, x: int)
    ensures CountBelow(Sorting.Insert(y, s, Smaller), x) == CountBelow(s, x) + (if y < x then 1 else 0)
    ensures CountUpTo(Sorting.Insert(y, s, Smaller), x) == CountUpTo(s, x) + (if y <= x then 1 else 0)
  {
    if s != [] && y >= s[0] {
      InsertCounts(y, s[1..], x);
      var tail := Sorting.Insert(y, s[1..], Smaller);
      assert ([s[0]] + tail)[1..] == tail;
    } else {
      assert ([y] + s)[1..] == s;
    }
  }

  lemma {:induction false} SortingKeepsCounts(s: seq<int>, x: int)
    ensures CountBelow(Sorted(s), x) == CountBelow(s, x) && CountUpTo(Sorted(s), x) == CountUpTo(s, x)
  {
    if s != [] {
      SortingKeepsCounts(s[1..], x);
      InsertCounts(s[0], Sorted(s[1..]), x);
    }
  }

  lemma {:induction false} RankInAscending(s: seq<int>, k: nat)
    requires Ascending(s) && k < |s|
    ensures CountBelow(s, s[k]) <= k < CountUpTo(s, s[k])
  {
    if k == 0 {
      NoneBelowFirst(s, s[0]);
    } else {
      RankInAscending(s[1..], k - 1);
    }
  }

  lemma {:induction false} NoneBelowFirst(s: seq<int>, x: int)
    requires forall i :: 0 <= i < |s| ==> x <= s[i]
    ensures CountBelow(s, x) == 0
  {
    if s != [] { NoneBelowFirst(s[1..], x); }
  }

  /** The element at position k of the sorted values has rank k among the values themselves. */
  lemma SortedElementHasItsRank(s: seq<int>, k: nat)
    requires k < |s|
    ensures CountBelow(s, Sorted(s)[k]) <= k < CountUpTo(s, Sorted(s)[k]) && Sorted(s)[k] in s
  {
    SortedAscends(s);
    RankInAscending(Sorted(s), k);
    SortingKeepsCounts(s, Sorted(s)[k]);
    assert Sorted(s)[k] in multiset(Sorted(s));
  }

  /** The position the verdict reads: 95% of the last index, rounded down. */
  function P95Index(m: nat): nat
    requires m >= 1
  {
    (m - 1) * 95 / 100
  }

  /** The largest index that is at most 95% of the last one. */
  lemma P95IndexIs(m: nat)
    requires m >= 1
    ensures P95Index(m) < m && P95Index(m) as real <= 0.95 * (m - 1) as real < (P95Index(m) + 1) as real
  {
    var k := P95Index(m);
    assert 100 * k <= 95 * (m - 1) < 100 * (k + 1);
  }

  /** The latency at that position of the sorted values. */
  function P95(values: seq<int>): int
    requires values != []
  {
    Sorted(values)[P95Index(|values|)]
  }

  /** Why a release is not reported healthy; the rate is given with its limit. */
  datatype Reason = NoObservations | ErrorRate(rate: real, threshold: real)

  datatype Health = Health(errorRate: real, latencyP95: int, samples: nat, healthy: bool, reasons: seq<Reason>)

  /** The failed share of the samples; 0 without samples. */
  function RateOf(failures: nat, samples: nat): real {
    if samples == 0 then 0.0 else failures as real / samples as real
  }

  /** Both reasons apply at once for a negative threshold and no samples. */
  function ReasonsFor(samples: nat, rate: real, threshold: real): seq<Reason> {
    (if samples == 0 then [NoObservations] else []) + (if rate > threshold then [ErrorRate(rate, threshold)] else [])
  }

  /** Nothing is held against a release exactly when it was observed and failed no more than allowed. */
  lemma NoReasonsIff(failures: nat, samples: nat, threshold: real)
    ensures ReasonsFor(samples, RateOf(failures, samples), threshold) == [] <==>
            samples > 0 && failures as real <= threshold * samples as real
  {
    if samples > 0 {
      var rate := RateOf(failures, samples);
      assert rate * samples as real == failures as real;
      if rate > threshold {
        assert (rate - threshold) * samples as real > 0.0;
      } else {
        assert (threshold - rate) * samples as real >= 0.0;
      }
    }
  }

  /** A release is healthy exactly when nothing is held against it. */
  method Explain(count: nat, rate: real, threshold: real) returns (healthy: bool, reasons: seq<Reason>)
    ensures reasons == ReasonsFor(count, rate, threshold) && (healthy <==> reasons == [])
  {
    healthy, reasons := count > 0 && rate <= threshold, [];
    if count == 0 {
      healthy, reasons := false, reasons + [NoObservations];
    }
    if rate > threshold {
      reasons := reasons + [ErrorRate(rate, threshold)];
    }
  }

  class Window {
    const max: nat
    const buffer: array<Observation>
    var length: nat

    ghost predicate Valid()
      reads this
    {
      max >= 1 && buffer.Length == max && length <= max
    }

    ghost function Contents(): seq<Observation>
      reads this, buffer
      requires Valid()
    {
      buffer[..length]
    }

    constructor (max: nat)
      ensures Valid() && fresh(buffer) && Contents() == [] && this.max == if max < 100 then 100 else max
    {
      var m := if max < 100 then 100 else max;
      this.max := m;
      buffer := new Observation[m](_ => Observation("", "", false, 0, 0));
      length := 0;
    }

    /** Shifts the full buffer down by one in place, then appends. */
    method Record(o: Observation) returns (ok: bool)
      requires Valid()
      modifies this, buffer
      ensures Valid() && (ok <==> Acceptable(o))
      ensures Contents() == if ok then Push(old(Contents()), o, max) else old(Contents())
    {
      if !Acceptable(o) {
        return false;
      }
      if length >= max {
        ghost var was := buffer[..];
        for i := 0 to max - 1
          invariant buffer[..i] == was[1..i + 1] && buffer[i..] == was[i..]
        {
          assert buffer[i + 1] == buffer[i..][1] == was[i + 1];
          assert buffer[i + 1..] == buffer[i..][1..];
          buffer[i] := buffer[i + 1];
        }
        length := max - 1;
      }
      buffer[length] := o;
      length := length + 1;
      return true;
    }

    /** The verdict over the window; it faults exactly when every counted sample lies on the cutoff itself. */
    method Evaluate(release: string, window: int, now: int, threshold: real) returns (r: Result<Health>)
      requires Valid()
      ensures var s, cutoff := Contents(), now - window;
              var n := Samples(s, release, cutoff, now);
              var rate := RateOf(Failures(s, release, cutoff, now), n);
              && (r.Err? <==> n > 0 && Latencies(s, release, cutoff, now) == []) && (r.Err? ==> r.error == Fault)
              && (r.Ok? ==>
                    && r.value.samples == n && r.value.errorRate == rate
                    && (r.value.healthy <==> r.value.reasons == [])
                    && r.value.reasons == ReasonsFor(n, rate, threshold)
                    && r.value.latencyP95
                       == (if n == 0 then 0 else P95(Latencies(s, release, cutoff, now)) / 1_000_000))
    {
      var cutoff := now - window;
      var count, fail := CountSamples(release, cutoff, now);
      var rate := RateOf(fail, count);
      var healthy, reasons := Explain(count, rate, threshold);
      if count == 0 {
        return Ok(Health(rate, 0, count, healthy, reasons));
      }
      var latency := ReadP95(release, cutoff, now);
      return match latency
        case Err(e) => Err(e)
        case Ok(value) => Ok(Health(rate, value / 1_000_000, count, healthy, reasons));
    }

    /** The second loop with its sort; an empty list is indexed out of range. */
    method ReadP95(release: string, cutoff: int, now: int) returns (r: Result<int>)
      requires Valid()
      ensures var values := Latencies(Contents(), release, cutoff, now);
              r == if values == [] then Err(Fault) else Ok(P95(values))
    {
      var values := CollectLatencies(release, cutoff, now);
      if |values| == 0 {
        return Err(Fault);
      }
      var sorted := Sorted(values);
      return Ok(sorted[P95Index(|values|)]);
    }

    method CountSamples(release: string, cutoff: int, now: int) returns (count: nat, fail: nat)
      requires Valid()
      ensures count == Samples(Contents(), release, cutoff, now) && fail == Failures(Contents(), release, cutoff, now)
    {
      count, fail := 0, 0;
      for i := 0 to length
        invariant count == Samples(buffer[..i], release, cutoff, now)
        invariant fail == Failures(buffer[..i], release, cutoff, now)
      {
        var o := buffer[i];
        assert buffer[..i + 1][..i] == buffer[..i];
        if o.releaseID != release || o.at < cutoff || o.at > now {
          continue;
        }
        count := count + 1;
        if !o.success {
          fail := fail + 1;
        }
      }
    }

    method CollectLatencies(release: string, cutoff: int, now: int) returns (values: seq<int>)
      requires Valid()
      ensures values == Latencies(Contents(), release, cutoff, now)
    {
      values := [];
      for i := 0 to length
        invariant values == Latencies(buffer[..i], release, cutoff, now)
      {
        var o := buffer[i];
        assert buffer[..i + 1][..i] == buffer[..i];
        if o.releaseID == release && o.at > cutoff && o.at <= now {
          values := values + [o.latency];
        }
      }
    }
  }
}
