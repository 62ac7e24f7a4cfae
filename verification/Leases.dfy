/** Fencing leases: the store and its manager (internal/fencing). */
module Leases {
  import opened Common

  datatype Lease = Lease(key: string, owner: string, version: int, expiresAt: int)

  type Table = map<string, Lease>

  datatype TableWrite = TableWrite(table: Table, error: Option<Error>)

  /** Only a larger version replaces a stored lease; a new key always succeeds. */
  function PutLease(t: Table, l: Lease): TableWrite {
    if l.key in t && l.version <= t[l.key].version then TableWrite(t, Some(StaleLease))
    else TableWrite(t[l.key := l], None)
  }

  /** Only the named version and owner is removed; an absent key is no error. */
  function DeleteLease(t: Table, key: string, owner: string, version: int): TableWrite {
    if key !in t then TableWrite(t, None)
    else if t[key].version != version || t[key].owner != owner then TableWrite(t, Some(StaleLease))
    else TableWrite(t - {key}, None)
  }

  // ---------------------------------------------------- runs of store steps

  /** One store step of any caller; reads change nothing and the arguments are free. */
  datatype Step = Put(lease: Lease) | Delete(key: string, owner: string, version: int)

  function Apply(t: Table, s: Step): Table {
    match s
    case Put(l) => PutLease(t, l).table
    case Delete(k, o, v) => DeleteLease(t, k, o, v).table
  }

  function Run(t: Table, steps: seq<Step>): Table {
    if steps == [] then t else Apply(Run(t, steps[..|steps| - 1]), steps[|steps| - 1])
  }

  /** Step i of the run removes the key's lease. */
  predicate Deletes(t: Table, steps: seq<Step>, i: nat, key: string)
    requires i < |steps|
  {
    key in Run(t, steps[..i]) && key !in Run(t, steps[..i + 1])
  }

  /** Step i of the run stores the lease. */
  predicate Stores(t: Table, steps: seq<Step>, i: nat, l: Lease)
    requires i < |steps|
  {
    steps[i] == Put(l) && PutLease(Run(t, steps[..i]), l).error.None?
  }

  /** No step from i up to j removes the key's lease. */
  ghost predicate Undeleted(t: Table, steps: seq<Step>, i: nat, j: nat, key: string)
    requires i <= j <= |steps|
  {
    forall k: nat :: i <= k < j ==> !Deletes(t, steps, k, key)
  }

  lemma RunOneMore(t: Table, steps: seq<Step>, i: nat)
    requires i < |steps|
    ensures Run(t, steps[..i + 1]) == Apply(Run(t, steps[..i]), steps[i])
  {
    assert steps[..i + 1][..i] == steps[..i];
  }

  /** While a key is not deleted its lease stays and its version never goes down; equal versions are the same lease. */
  lemma {:induction false} VersionsOnlyRise(t: Table, steps: seq<Step>, i: nat, j: nat, key: string)
    requires i <= j <= |steps| && Undeleted(t, steps, i, j, key) && key in Run(t, steps[..i])
    ensures key in Run(t, steps[..j])
    ensures var a, b := Run(t, steps[..i])[key], Run(t, steps[..j])[key];
            a.version <= b.version && (a.version == b.version ==> a == b)
    decreases j - i
  {
    if i < j {
      VersionsOnlyRise(t, steps, i, j - 1, key);
      assert !Deletes(t, steps, j - 1, key);
      RunOneMore(t, steps, j - 1);
      OneStepRises(Run(t, steps[..j - 1]), steps[j - 1], key);
    }
  }

  lemma OneStepRises(t: Table, s: Step, key: string)
    requires key in t && key in Apply(t, s)
    ensures var a, b := t[key], Apply(t, s)[key]; a.version <= b.version && (a.version == b.version ==> a == b)
  {
  }

  /** Between deletes of a key, stored versions strictly increase, so no version is stored twice. */
  lemma StoredVersionsIncrease(t: Table, steps: seq<Step>, i: nat, j: nat, a: Lease, b: Lease)
    requires i < j < |steps| && a.key == b.key && Undeleted(t, steps, i, j, a.key)
    requires Stores(t, steps, i, a) && Stores(t, steps, j, b)
    ensures a.version < b.version
  {
    RunOneMore(t, steps, i);
    VersionsOnlyRise(t, steps, i + 1, j, a.key);
  }

  /** Of two claims that read the same predecessor, hence carry the same version, at most one is ever stored. */
  lemma OneOfEqualClaimsIsStored(t: Table, steps: seq<Step>, i: nat, j: nat, a: Lease, b: Lease)
    requires i < j < |steps| && a.key == b.key && a.version == b.version && Undeleted(t, steps, i, j, a.key)
    ensures !(Stores(t, steps, i, a) && Stores(t, steps, j, b))
  {
    if Stores(t, steps, i, a) && Stores(t, steps, j, b) {
      StoredVersionsIncrease(t, steps, i, j, a, b);
    }
  }

  /** A holder that has been superseded cannot remove the lease that superseded it. */
  lemma SupersededHolderCannotDelete(t: Table, steps: seq<Step>, i: nat, j: nat, a: Lease, b: Lease, m: nat)
    requires i < j < m <= |steps| && a.key == b.key && Undeleted(t, steps, i, m, a.key)
    requires Stores(t, steps, i, a) && Stores(t, steps, j, b)
    ensures DeleteLease(Run(t, steps[..m]), a.key, a.owner, a.version)
            == TableWrite(Run(t, steps[..m]), Some(StaleLease))
  {
    StoredVersionsIncrease(t, steps, i, j, a, b);
    RunOneMore(t, steps, j);
    VersionsOnlyRise(t, steps, j + 1, m, a.key);
  }

  /** Releasing the lease takes some lease of its key away. */
  predicate Revokes(t: Table, l: Lease) {
    l.key in t && l.key !in DeleteLease(t, l.key, l.owner, l.version).table
  }

  /**
   When the holder of a lease stored at step i takes away another lease at m: exactly when that lease
   has the holder's own owner and version, and then the key was deleted in between.
   */
  lemma RevokesAnotherIff(t: Table, steps: seq<Step>, i: nat, m: nat, a: Lease)
    requires i < m <= |steps| && Stores(t, steps, i, a) && a.key in Run(t, steps[..m])
    ensures var held := Run(t, steps[..m])[a.key];
            && (Revokes(Run(t, steps[..m]), a) && held != a
                <==> held != a && held.owner == a.owner && held.version == a.version)
            && (Revokes(Run(t, steps[..m]), a) && held != a ==> !Undeleted(t, steps, i + 1, m, a.key))
  {
    RunOneMore(t, steps, i);
    if Undeleted(t, steps, i + 1, m, a.key) {
      VersionsOnlyRise(t, steps, i + 1, m, a.key);
    }
  }

  /** It does happen: a delete restarts the numbering, so an owner's late release can take its own newer lease away. */
  lemma OwnNewerLeaseCanBeRevoked(key: string, owner: string, version: int, early: int, late: int)
    requires early != late
    ensures var a, b := Lease(key, owner, version, early), Lease(key, owner, version, late);
            var steps := [Put(a), Delete(key, owner, version), Put(b)];
            && Stores(map[], steps, 0, a) && Stores(map[], steps, 2, b)
            && Run(map[], steps) == map[key := b] && b != a && Revokes(Run(map[], steps), a)
  {
    var a, b := Lease(key, owner, version, early), Lease(key, owner, version, late);
    var steps := [Put(a), Delete(key, owner, version), Put(b)];
    assert steps[..0] == [] && steps[..3] == steps;
    RunOneMore(map[], steps, 0);
    RunOneMore(map[], steps, 1);
    RunOneMore(map[], steps, 2);
    assert Run(map[], steps[..2]) == map[];
  }

  /** The step claims the key only for the given owners and releases it only for others. */
  predicate LeavesTo(s: Step, key: string, owners: set<string>) {
    match s
    case Put(l) => l.key == key ==> l.owner in owners
    case Delete(k, o, _) => k == key ==> o !in owners
  }

  predicate HeldBy(t: Table, key: string, owners: set<string>) {
    key in t && t[key].owner in owners
  }

  lemma OneStepLeaves(t: Table, s: Step, key: string, owners: set<string>)
    requires HeldBy(t, key, owners) && LeavesTo(s, key, owners)
    ensures HeldBy(Apply(t, s), key, owners)
  {
  }

  /** No release by other owners, with whatever version, ever takes a lease away, in any run. */
  lemma {:induction false} OtherOwnersCannotRevoke(
    t: Table, steps: seq<Step>, i: nat, j: nat, key: string, owners: set<string>)
    requires i <= j <= |steps| && HeldBy(Run(t, steps[..i]), key, owners)
    requires forall k :: i <= k < j ==> LeavesTo(steps[k], key, owners)
    ensures HeldBy(Run(t, steps[..j]), key, owners)
    decreases j - i
  {
    if i < j {
      OtherOwnersCannotRevoke(t, steps, i, j - 1, key, owners);
      RunOneMore(t, steps, j - 1);
      OneStepLeaves(Run(t, steps[..j - 1]), steps[j - 1], key, owners);
    }
  }

  /**
   A renewal read at i and written at j is accepted exactly when the key is then absent or carries a
   smaller version than was read, and then it was deleted in between.
   */
  lemma RenewalNeedsADelete(t: Table, steps: seq<Step>, i: nat, j: nat, key: string, expiresAt: int)
    requires i <= j <= |steps| && key in Run(t, steps[..i]) && Run(t, steps[..i])[key].key == key
    ensures var read, now := Run(t, steps[..i])[key], Run(t, steps[..j]);
            var renewal := PutLease(now, read.(expiresAt := expiresAt));
            && (renewal.error.None? <==> key !in now || now[key].version < read.version)
            && (renewal.error.None? ==> !Undeleted(t, steps, i, j, key))
  {
    if Undeleted(t, steps, i, j, key) {
      VersionsOnlyRise(t, steps, i, j, key);
    }
  }

  // ------------------------------------------------------- store and manager

  class Store {
    var leases: Table

    constructor ()
      ensures leases == map[]
    {
      leases := map[];
    }

    method Get(key: string) returns (l: Option<Lease>)
      ensures l == if key in leases then Some(leases[key]) else None
    {
      return if key in leases then Some(leases[key]) else None;
    }

    method Put(l: Lease) returns (err: Option<Error>)
      modifies this
      ensures TableWrite(leases, err) == PutLease(old(leases), l)
    {
      if l.key in leases && l.version <= leases[l.key].version {
        return Some(StaleLease);
      }
      leases := leases[l.key := l];
      return None;
    }

    method Delete(key: string, owner: string, version: int) returns (err: Option<Error>)
      modifies this
      ensures TableWrite(leases, err) == DeleteLease(old(leases), key, owner, version)
    {
      if key !in leases {
        return None;
      }
      var l := leases[key];
      if l.version != version || l.owner != owner {
        return Some(StaleLease);
      }
      leases := leases - {key};
      return None;
    }
  }

  /** Leases are filed under their own key. */
  ghost predicate Keyed(t: Table) {
    forall k :: k in t ==> t[k].key == k
  }

  /** The keys of the list whose lease had expired, in order and once each. */
  function Expired(t: Table, keys: seq<string>, now: int): seq<string> {
    if keys == [] then []
    else
      var front, last := keys[..|keys| - 1], keys[|keys| - 1];
      Expired(t, front, now)
      + if last in t && last !in front && t[last].expiresAt <= now then [last] else []
  }

  lemma {:induction false} ExpiredMembers(t: Table, keys: seq<string>, now: int, k: string)
    ensures k in Expired(t, keys, now) <==> k in keys && k in t && t[k].expiresAt <= now
  {
    if keys != [] {
      ExpiredMembers(t, keys[..|keys| - 1], now, k);
      assert keys == keys[..|keys| - 1] + [keys[|keys| - 1]];
    }
  }

  class Manager {
    const store: Store
    const ttl: int

    constructor (store: Store, ttl: int)
      ensures this.store == store && this.ttl == if ttl <= 0 then 30 else ttl
    {
      this.store := store;
      this.ttl := if ttl <= 0 then 30 else ttl;
    }

    /** Without interference the claim is stored, one version above the lease it replaces. */
    method Acquire(key: string, owner: string, now: int) returns (l: Lease)
      modifies store
      ensures l.key == key && l.owner == owner && l.expiresAt == now + ttl
      ensures l.version == if key in old(store.leases) then old(store.leases[key]).version + 1 else 1
      ensures store.leases == old(store.leases)[key := l]
    {
      var prev := store.Get(key);
      var version := match prev case Some(p) => p.version + 1 case None => 1;
      l := Lease(key, owner, version, now + ttl);
      var _ := store.Put(l);
    }

    /** Without interference a renewal always fails: it writes back the version it has read. */
    method Renew(key: string, owner: string, version: int, now: int) returns (r: Result<Lease>)
      requires Keyed(store.leases)
      modifies store
      ensures r == Err(StaleLease) && store.leases == old(store.leases)
    {
      var current := store.Get(key);
      match current
      case None =>
        return Err(StaleLease);
      case Some(l) =>
        if l.owner != owner || l.version != version {
          return Err(StaleLease);
        }
        var next := l.(expiresAt := now + ttl);
        var err := store.Put(next);
        return match err case Some(e) => Err(e) case None => Ok(next);
    }

    method Release(key: string, owner: string, version: int) returns (err: Option<Error>)
      modifies store
      ensures TableWrite(store.leases, err) == DeleteLease(old(store.leases), key, owner, version)
    {
      err := store.Delete(key, owner, version);
    }

    /** The loop body: an expired lease is deleted under its own owner and version. */
    method ExpireOne(key: string, now: int) returns (gone: bool)
      modifies store
      ensures gone <==> key in old(store.leases) && old(store.leases[key]).expiresAt <= now
      ensures store.leases == if gone then old(store.leases) - {key} else old(store.leases)
    {
      var l := store.Get(key);
      match l
      case None => return false;
      case Some(lease) =>
        if lease.expiresAt > now {
          return false;
        }
        var err := store.Delete(key, lease.owner, lease.version);
        return err.None?;
    }

    /** Removes exactly the listed leases that have expired and reports each once. */
    method ExpireStale(keys: seq<string>, now: int) returns (released: seq<string>)
      modifies store
      ensures released == Expired(old(store.leases), keys, now)
      ensures forall k :: k in store.leases <==> k in old(store.leases) && k !in released
      ensures forall k :: k in store.leases ==> store.leases[k] == old(store.leases[k])
    {
      released := [];
      for i := 0 to |keys|
        invariant released == Expired(old(store.leases), keys[..i], now)
        invariant forall k :: k in store.leases <==> k in old(store.leases) && k !in released
        invariant forall k :: k in store.leases ==> store.leases[k] == old(store.leases[k])
      {
        assert keys[..i + 1][..i] == keys[..i];
        ExpiredMembers(old(store.leases), keys[..i], now, keys[i]);
        var gone := ExpireOne(keys[i], now);
        if gone {
          released := released + [keys[i]];
        }
      }
      assert keys[..|keys|] == keys;
    }
  }
}
