/** The audit hash chain and its scoped queries (internal/audit, internal/application/operations.go). */
module Audit {
  import opened Common

  datatype Record = Record(
    id: string, scope: string, actor: string, action: string, resource: string,
    metadata: string, at: int, previousHash: string, hash: string)

  /** What a hash covers: neither the id nor the stored previous hash. */
  datatype Sealed = Sealed(
    scope: string, actor: string, action: string, resource: string, previous: string, metadata: string, at: int)

  type Digest = Sealed -> string

  /** The digest is injective and never empty. */
  ghost predicate Ideal(digest: Digest) {
    && (forall a, b :: digest(a) == digest(b) ==> a == b)
    && (forall a :: digest(a) != "")
  }

  function Contents(r: Record, previous: string): Sealed {
    Sealed(r.scope, r.actor, r.action, r.resource, previous, r.metadata, r.at)
  }

  function Seal(r: Record, previous: string, digest: Digest): Record {
    r.(previousHash := previous, hash := digest(Contents(r, previous)))
  }

  /** The hash a chain ends in; the empty chain ends in the empty hash. */
  function FinalHash(records: seq<Record>): string {
    if records == [] then "" else records[|records| - 1].hash
  }

  ghost predicate LinkAt(records: seq<Record>, i: int, digest: Digest) {
    0 <= i < |records| ==> records[i].hash == digest(Contents(records[i], FinalHash(records[..i])))
  }

  /** Every hash is the digest of its record and of the hash before it. */
  ghost predicate Verifies(records: seq<Record>, digest: Digest) {
    forall i :: 0 <= i < |records| ==> LinkAt(records, i, digest)
  }

  method Verify(records: seq<Record>, digest: Digest) returns (ok: bool)
    ensures ok <==> Verifies(records, digest)
  {
    var previous := "";
    for i := 0 to |records|
      invariant previous == FinalHash(records[..i])
      invariant forall k :: 0 <= k < i ==> LinkAt(records, k, digest)
    {
      var candidate := Seal(records[i], previous, digest);
      if candidate.hash != records[i].hash {
        assert !LinkAt(records, i, digest);
        return false;
      }
      previous := records[i].hash;
    }
    return true;
  }

  // ------------------------------------------------------------- the chain

  lemma PrefixVerifies(records: seq<Record>, n: nat, digest: Digest)
    requires Verifies(records, digest) && n <= |records|
    ensures Verifies(records[..n], digest)
  {
    forall i | 0 <= i < n ensures LinkAt(records[..n], i, digest) {
      assert LinkAt(records, i, digest);
      assert records[..n][..i] == records[..i];
    }
  }

  /** Appending a sealed record keeps a chain verifying. */
  lemma AppendVerifies(records: seq<Record>, r: Record, digest: Digest)
    requires Verifies(records, digest)
    ensures Verifies(records + [Seal(r, FinalHash(records), digest)], digest)
  {
    var more := records + [Seal(r, FinalHash(records), digest)];
    forall i | 0 <= i < |more| ensures LinkAt(more, i, digest) {
      assert more[..i] == records[..i];
      if i < |records| {
        assert LinkAt(records, i, digest);
      } else {
        assert records[..i] == records;
      }
    }
  }

  /** The log after appending the given records, one after the other. */
  function Logged(log: seq<Record>, records: seq<Record>, digest: Digest): seq<Record> {
    if records == [] then log
    else
      var front := Logged(log, records[..|records| - 1], digest);
      front + [Seal(records[|records| - 1], FinalHash(front), digest)]
  }

  /** Every log that was only appended to verifies and keeps what was appended. */
  lemma {:induction false} EveryLogVerifies(records: seq<Record>, digest: Digest)
    ensures Verifies(Logged([], records, digest), digest) && |Logged([], records, digest)| == |records|
    ensures forall i :: 0 <= i < |records| ==>
              Logged([], records, digest)[i]
              == records[i].(previousHash := FinalHash(Logged([], records, digest)[..i]),
                             hash := Logged([], records, digest)[i].hash)
  {
    if records != [] {
      var n := |records| - 1;
      EveryLogVerifies(records[..n], digest);
      var front, log := Logged([], records[..n], digest), Logged([], records, digest);
      AppendVerifies(front, records[n], digest);
      forall i | 0 <= i < |records|
        ensures log[i] == records[i].(previousHash := FinalHash(log[..i]), hash := log[i].hash)
      {
        assert log[..i] == front[..i];
        if i < n {
          assert log[i] == front[i] && records[i] == records[..n][i];
        } else {
          assert front[..i] == front;
        }
      }
    }
  }

  /** Agreement on everything a hash covers, and on the hash. */
  ghost predicate SameSealed(a: Record, b: Record) {
    a == b.(id := a.id, previousHash := a.previousHash)
  }

  /** The final hash fixes the whole chain: length, order and every sealed field. */
  lemma {:induction false} FinalHashFixesTheChain(a: seq<Record>, b: seq<Record>, digest: Digest)
    requires Ideal(digest) && Verifies(a, digest) && Verifies(b, digest) && FinalHash(a) == FinalHash(b)
    ensures |a| == |b| && forall i :: 0 <= i < |a| ==> SameSealed(a[i], b[i])
  {
    assert a != [] ==> LinkAt(a, |a| - 1, digest);
    assert b != [] ==> LinkAt(b, |b| - 1, digest);
    if a != [] {
      var m, n := |a| - 1, |b| - 1;
      PrefixVerifies(a, m, digest);
      PrefixVerifies(b, n, digest);
      assert Contents(a[m], FinalHash(a[..m])) == Contents(b[n], FinalHash(b[..n]));
      FinalHashFixesTheChain(a[..m], b[..n], digest);
      forall i | 0 <= i < |a| ensures SameSealed(a[i], b[i]) {
        if i < m { assert a[i] == a[..m][i] && b[i] == b[..n][i]; }
      }
    }
  }

  // -------------------------------------------------------- scoped queries

  function InScope(records: seq<Record>, scope: string): seq<Record> {
    if records == [] then []
    else
      var last := records[|records| - 1];
      InScope(records[..|records| - 1], scope) + (if last.scope == scope then [last] else [])
  }

  lemma {:induction false} InScopeNeverGrows(records: seq<Record>, scope: string)
    ensures |InScope(records, scope)| <= |records|
    ensures |InScope(records, scope)| == |records| ==> InScope(records, scope) == records
  {
    if records != [] {
      InScopeNeverGrows(records[..|records| - 1], scope);
      assert records == records[..|records| - 1] + [records[|records| - 1]];
    }
  }

  /** The last record in scope, and the part of the log up to it. */
  lemma {:induction false} LastInScope(records: seq<Record>, scope: string) returns (m: nat)
    requires InScope(records, scope) != []
    ensures m < |records| && InScope(records, scope) == InScope(records[..m + 1], scope)
    ensures FinalHash(InScope(records, scope)) == records[m].hash
  {
    var n := |records| - 1;
    if records[n].scope == scope {
      m := n;
      assert records[..n + 1] == records;
    } else {
      m := LastInScope(records[..n], scope);
      assert records[..n][..m + 1] == records[..m + 1];
    }
  }

  /** A scope's records of a genuine log verify on their own exactly when they are the log's first records. */
  lemma ScopedChainVerifiesIffPrefix(log: seq<Record>, scope: string, digest: Digest)
    requires Ideal(digest) && Verifies(log, digest)
    ensures Verifies(InScope(log, scope), digest) <==> InScope(log, scope) <= log
  {
    var part := InScope(log, scope);
    if part <= log {
      PrefixVerifies(log, |part|, digest);
      assert part == log[..|part|];
    } else if Verifies(part, digest) {
      VerifyingScopeIsPrefix(log, scope, digest);
    }
  }

  /** A verifying scope ends in the hash of some prefix of the log, hence is as long as that prefix, hence is it. */
  lemma VerifyingScopeIsPrefix(log: seq<Record>, scope: string, digest: Digest)
    requires Ideal(digest) && Verifies(log, digest) && Verifies(InScope(log, scope), digest)
    ensures InScope(log, scope) <= log
  {
    if InScope(log, scope) != [] {
      var m := LastInScope(log, scope);
      PrefixVerifies(log, m + 1, digest);
      FinalHashFixesTheChain(InScope(log, scope), log[..m + 1], digest);
      InScopeNeverGrows(log[..m + 1], scope);
    }
  }

  /** A scope whose first record is not the log's first is reported as tampered with, although nothing was. */
  lemma GenuineLogCanBeReportedInvalid(a: Record, b: Record, digest: Digest)
    requires Ideal(digest) && a.scope != b.scope
    ensures var first := Seal(a, "", digest);
            var log := [first, Seal(b, first.hash, digest)];
            Verifies(log, digest) && !Verifies(InScope(log, b.scope), digest)
  {
    var first := Seal(a, "", digest);
    var second := Seal(b, first.hash, digest);
    TwoRecordsVerify(a, b, digest);
    OnlySecondInScope(first, second);
    ScopedChainVerifiesIffPrefix([first, second], b.scope, digest);
  }

  lemma TwoRecordsVerify(a: Record, b: Record, digest: Digest)
    ensures var first := Seal(a, "", digest); Verifies([first, Seal(b, first.hash, digest)], digest)
  {
    var first := Seal(a, "", digest);
    var log := [first, Seal(b, first.hash, digest)];
    assert log[..0] == [] && log[..1] == [first];
    assert LinkAt(log, 0, digest) && LinkAt(log, 1, digest);
  }

  lemma OnlySecondInScope(first: Record, second: Record)
    requires first.scope != second.scope
    ensures var part := InScope([first, second], second.scope); part == [second] && !(part <= [first, second])
  {
    var log := [first, second];
    assert log[..1] == [first] && [first][..0] == [];
    assert InScope([first], second.scope) == InScope([], second.scope) == [];
    assert [second][0] != log[0];
  }

  /** Wildcard fields are empty; the window is closed at the start and open at the end. */
  datatype Query = Query(
    scope: string, actor: string, action: string, resource: string, from: Option<int>, to: Option<int>)
  {
    predicate Match(r: Record) {
      && (scope == "" || r.scope == scope)
      && (actor == "" || r.actor == actor)
      && (action == "" || r.action == action)
      && (resource == "" || r.resource == resource)
      && (from.Some? ==> r.at >= from.value)
      && (to.Some? ==> r.at < to.value)
    }
  }

  function Matching(records: seq<Record>, q: Query): seq<Record> {
    if records == [] then []
    else
      var last := records[|records| - 1];
      Matching(records[..|records| - 1], q) + (if q.Match(last) then [last] else [])
  }

  const EVERYTHING := Query("", "", "", "", None, None)

  /** A query without fields matches every record. */
  lemma EverythingMatches(r: Record)
    ensures EVERYTHING.Match(r)
  {
  }

  /** Each field of a query asks for exactly its own field of the record; times are closed at the start only. */
  lemma FieldsMatchTheirOwn(r: Record, s: string, t: int)
    requires s != ""
    ensures EVERYTHING.(scope := s).Match(r) <==> r.scope == s
    ensures EVERYTHING.(actor := s).Match(r) <==> r.actor == s
    ensures EVERYTHING.(action := s).Match(r) <==> r.action == s
    ensures EVERYTHING.(resource := s).Match(r) <==> r.resource == s
    ensures EVERYTHING.(from := Some(t)).Match(r) <==> t <= r.at
    ensures EVERYTHING.(to := Some(t)).Match(r) <==> r.at < t
  {
  }

  /** A query is the conjunction of its fields. */
  lemma QueryIsItsFields(q: Query, r: Record)
    ensures q.Match(r) <==>
            && EVERYTHING.(scope := q.scope).Match(r) && EVERYTHING.(actor := q.actor).Match(r)
            && EVERYTHING.(action := q.action).Match(r) && EVERYTHING.(resource := q.resource).Match(r)
            && EVERYTHING.(from := q.from).Match(r) && EVERYTHING.(to := q.to).Match(r)
  {
  }

  /** The matches are the records that match, each as often as it was logged, in log order. */
  lemma {:induction false} MatchesAreTheMatching(records: seq<Record>, q: Query, r: Record)
    ensures multiset(Matching(records, q))[r] == if q.Match(r) then multiset(records)[r] else 0
  {
    if records != [] {
      MatchesAreTheMatching(records[..|records| - 1], q, r);
      assert records == records[..|records| - 1] + [records[|records| - 1]];
    }
  }

  /** A scope's records are those a query for the scope alone matches. */
  lemma {:induction false} ScopeIsAQuery(records: seq<Record>, scope: string)
    requires scope != ""
    ensures InScope(records, scope) == Matching(records, EVERYTHING.(scope := scope))
  {
    if records != [] {
      ScopeIsAQuery(records[..|records| - 1], scope);
    }
  }

  function PagesUpTo(items: seq<Record>, k: nat, size: int): seq<Record>
    requires size >= 1
  {
    if k == 0 then [] else PagesUpTo(items, k - 1, size) + PageOf(items, k, size)
  }

  /** The pages of a listing, one after the other, are the listing: nothing is lost, doubled or reordered. */
  lemma {:induction false} PagesTile(items: seq<Record>, k: nat, size: int)
    requires size >= 1
    ensures PagesUpTo(items, k, size) == items[..if k * size <= |items| then k * size else |items|]
    ensures forall i :: 0 < i <= k ==> |PageOf(items, i, size)| <= size
  {
    if k > 0 {
      PagesTile(items, k - 1, size);
      assert k * size == (k - 1) * size + size;
      assert (k - 1) * size >= 0;
    }
  }

  /** Adjacent windows split a query without loss and without overlap. */
  lemma {:induction false} AdjacentWindowsPartition(records: seq<Record>, q: Query, mid: int)
    requires q.from.Some? ==> q.from.value <= mid
    requires q.to.Some? ==> mid <= q.to.value
    ensures multiset(Matching(records, q))
         == multiset(Matching(records, q.(to := Some(mid)))) + multiset(Matching(records, q.(from := Some(mid))))
  {
    if records != [] {
      AdjacentWindowsPartition(records[..|records| - 1], q, mid);
    }
  }

  /** The page of a listing; pages count from 1. */
  function PageOf(items: seq<Record>, page: int, size: int): seq<Record>
    requires page >= 1 && size >= 1
  {
    var start := (page - 1) * size;
    if start > |items| then []
    else items[start..if start + size > |items| then |items| else start + size]
  }

  datatype AuditPage = AuditPage(items: seq<Record>, page: int, size: int, total: int, chainValid: bool)

  class AuditLog {
    const digest: Digest
    var audits: seq<Record>

    constructor (digest: Digest)
      ensures this.digest == digest && audits == []
    {
      this.digest, audits := digest, [];
    }

    /** Seals the record onto the end; a log built only this way always verifies. */
    method Append(r: Record)
      modifies this
      ensures audits == old(audits) + [Seal(r, FinalHash(old(audits)), digest)]
      ensures Verifies(old(audits), digest) ==> Verifies(audits, digest)
    {
      var previous := "";
      if |audits| > 0 {
        previous := audits[|audits| - 1].hash;
      }
      if Verifies(audits, digest) {
        AppendVerifies(audits, r, digest);
      }
      audits := audits + [Seal(r, previous, digest)];
    }

    method ListFiltered(q: Query, page: int, size: int) returns (items: seq<Record>, total: int)
      requires page >= 1 && size >= 1
      ensures items == PageOf(Matching(audits, q), page, size) && total == |Matching(audits, q)|
    {
      var all: seq<Record> := [];
      for i := 0 to |audits|
        invariant all == Matching(audits[..i], q)
      {
        assert audits[..i + 1][..i] == audits[..i];
        if q.Match(audits[i]) {
          all := all + [audits[i]];
        }
      }
      assert audits[..|audits|] == audits;
      items, total := PageOf(all, page, size), |all|;
    }

    /** What other callers append. */
    method AppendAll(records: seq<Record>)
      modifies this
      ensures audits == Logged(old(audits), records, digest)
      ensures Verifies(old(audits), digest) ==> Verifies(audits, digest)
    {
      for i := 0 to |records|
        invariant audits == Logged(old(audits), records[..i], digest)
        invariant Verifies(old(audits), digest) ==> Verifies(audits, digest)
      {
        assert records[..i + 1][..i] == records[..i];
        Append(records[i]);
      }
      assert records[..|records|] == records;
    }

    /** The second read of a query: a copy of the log, cut down to the scope in place, is verified. */
    method VerifyScope(scope: string) returns (valid: bool)
      ensures valid <==> Verifies(if scope == "" then audits else InScope(audits, scope), digest)
      ensures Ideal(digest) && Verifies(audits, digest) ==>
                (valid <==> scope == "" || InScope(audits, scope) <= audits)
    {
      var chain := new Record[|audits|](i requires 0 <= i < |audits| reads this => audits[i]);
      assert chain[..] == audits;
      var n := chain.Length;
      assert chain[..n] == audits;
      if scope != "" {
        n := Compact(chain, scope);
        if Ideal(digest) && Verifies(audits, digest) {
          ScopedChainVerifiesIffPrefix(audits, scope, digest);
        }
      }
      valid := Verify(chain[..n], digest);
    }

    /** Pages the matches, then verifies the scope's part of the log, which others may have added to in between. */
    method QueryAudit(q: Query, page: int, size: int, between: seq<Record>) returns (out: AuditPage)
      modifies this
      ensures audits == Logged(old(audits), between, digest)
      ensures (page >= 1 ==> out.page == page) && (page < 1 ==> out.page == 1)
      ensures 1 <= size <= 500 ==> out.size == size
      ensures (size < 1 ==> out.size == 50) && (size > 500 ==> out.size == 500)
      ensures out.items == PageOf(Matching(old(audits), q), out.page, out.size)
      ensures out.total == |Matching(old(audits), q)|
      ensures out.chainValid <==> Verifies(if q.scope == "" then audits else InScope(audits, q.scope), digest)
      ensures Ideal(digest) && Verifies(old(audits), digest) ==>
                (out.chainValid <==> q.scope == "" || InScope(audits, q.scope) <= audits)
    {
      var p := if page < 1 then 1 else page;
      var s := if size < 1 then 50 else if size > 500 then 500 else size;
      var items, total := ListFiltered(q, p, s);
      AppendAll(between);
      var valid := VerifyScope(q.scope);
      return AuditPage(items, p, s, total, valid);
    }
  }

  /** The in-place scope filter over the copied log. */
  method Compact(chain: array<Record>, scope: string) returns (n: nat)
    modifies chain
    ensures n <= chain.Length && chain[..n] == InScope(old(chain[..]), scope)
  {
    n := 0;
    ghost var log := chain[..];
    for i := 0 to chain.Length
      invariant n <= i && chain[..n] == InScope(log[..i], scope)
      invariant chain[i..] == log[i..]
    {
      assert chain[i] == chain[i..][0] == log[i];
      assert log[..i + 1][..i] == log[..i];
      assert chain[i + 1..] == log[i + 1..] by {
        assert chain[i + 1..] == chain[i..][1..];
      }
      if chain[i].scope == scope {
        chain[n] := chain[i];
        n := n + 1;
      }
    }
    assert log[..chain.Length] == log;
  }
}
