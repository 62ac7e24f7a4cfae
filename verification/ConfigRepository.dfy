/** The in-memory configuration store (internal/repository/memory.go). */
module ConfigRepository {
  import opened Common
  import opened ConfigDomain
  import Sorting
  import Text

  datatype Store = Store(
    configs: map<string, Config>, configKeys: map<string, string>, versions: map<VersionRef, ConfigVersion>)

  datatype StoreWrite = StoreWrite(store: Store, error: Option<Error>)

  /** Insertion: refused for a used id and for a used scope and key. */
  function CreateConfig(st: Store, c: Config): StoreWrite {
    if c.id in st.configs then StoreWrite(st, Some(Conflict))
    else if c.IndexKey() in st.configKeys then StoreWrite(st, Some(Conflict))
    else
      StoreWrite(st.(configs := st.configs[c.id := c], configKeys := st.configKeys[c.IndexKey() := c.id]), None)
  }

  /** Insertion of a numbered version: an existing number is never overwritten. */
  function InsertVersion(st: Store, v: ConfigVersion): StoreWrite {
    if v.configID !in st.configs then StoreWrite(st, Some(NotFound))
    else if v.Ref() in st.versions then StoreWrite(st, Some(Conflict))
    else StoreWrite(st.(versions := st.versions[v.Ref() := v]), None)
  }

  /** Compare-and-set on the version's revision. */
  function ReplaceVersion(st: Store, v: ConfigVersion, expected: int): StoreWrite {
    if v.Ref() !in st.versions then StoreWrite(st, Some(NotFound))
    else if st.versions[v.Ref()].revision != expected then StoreWrite(st, Some(Precondition))
    else StoreWrite(st.(versions := st.versions[v.Ref() := v]), None)
  }

  /** One more than the largest number stored for the configuration, and at least 1. */
  ghost predicate FollowsAll(stored: set<VersionRef>, id: string, n: int) {
    && n >= 1
    && (forall ref :: ref in stored && ref.configID == id ==> ref.version < n)
    && (n > 1 ==> VersionRef(id, n - 1) in stored)
  }

  ghost function NextNumber(stored: set<VersionRef>, id: string): (n: int)
    ensures FollowsAll(stored, id, n)
  {
    if stored == {} then 1
    else
      var ref :| ref in stored;
      var rest := stored - {ref};
      assert forall r :: r in stored <==> r == ref || r in rest;
      if ref.configID == id && ref.version >= NextNumber(rest, id) then ref.version + 1 else NextNumber(rest, id)
  }

  lemma NextNumberIsUnique(stored: set<VersionRef>, id: string, n: int)
    requires FollowsAll(stored, id, n)
    ensures n == NextNumber(stored, id)
  {
    var m := NextNumber(stored, id);
    assert n > 1 ==> VersionRef(id, n - 1).version < m;
    assert m > 1 ==> VersionRef(id, m - 1).version < n;
  }

  /** Versions are filed under their own name, below an existing configuration. */
  ghost predicate Filed(st: Store) {
    forall ref :: ref in st.versions ==> st.versions[ref].Ref() == ref && ref.configID in st.configs
  }

  /** Versions are filed under their own name, numbered from 1, below an existing configuration. */
  ghost predicate Numbered(st: Store) {
    forall ref :: ref in st.versions ==>
                    st.versions[ref].Ref() == ref && ref.version >= 1 && ref.configID in st.configs
  }

  /** No number is skipped: below a stored number every positive number is stored. */
  ghost predicate Gapless(st: Store) {
    forall a: VersionRef, b: VersionRef ::
      a in st.versions && a.configID == b.configID && 1 <= b.version < a.version ==> b in st.versions
  }

  /** The version's number is positive and all smaller positive numbers are stored. */
  ghost predicate LeavesNoGap(versions: map<VersionRef, ConfigVersion>, v: ConfigVersion) {
    v.number >= 1 && forall k :: 1 <= k < v.number ==> VersionRef(v.configID, k) in versions
  }

  /** Every configuration passed its checks. */
  ghost predicate Named(st: Store) {
    forall id :: id in st.configs ==> st.configs[id].Valid()
  }

  /** The secondary index: every configuration is filed under its id and indexed under its key, and vice versa. */
  ghost predicate Indexed(st: Store) {
    && (forall id :: id in st.configs ==>
                       && st.configs[id].id == id
                       && st.configs[id].IndexKey() in st.configKeys
                       && st.configKeys[st.configs[id].IndexKey()] == id)
    && (forall k :: k in st.configKeys ==>
                      st.configKeys[k] in st.configs && st.configs[st.configKeys[k]].IndexKey() == k)
  }

  lemma CreateKeepsIndex(st: Store, c: Config)
    requires Indexed(st)
    ensures Indexed(CreateConfig(st, c).store)
  {
  }

  lemma CreateKeepsVersions(st: Store, c: Config)
    ensures var t := CreateConfig(st, c).store;
            && (Filed(st) ==> Filed(t)) && (Numbered(st) ==> Numbered(t)) && (Gapless(st) ==> Gapless(t))
            && (Named(st) && c.Valid() ==> Named(t))
  {
  }

  /** A new configuration conflicts exactly when its id or its scope and key are taken. */
  lemma ConflictIffTaken(st: Store, c: Config)
    requires Indexed(st) && Named(st) && c.Valid()
    ensures CreateConfig(st, c).error == Some(Conflict) <==>
            exists id :: id in st.configs
                         && (id == c.id || (st.configs[id].scope == c.scope && st.configs[id].key == c.key))
  {
    forall id | id in st.configs
      ensures st.configs[id].IndexKey() == c.IndexKey() <==>
              st.configs[id].scope == c.scope && st.configs[id].key == c.key
    {
      IndexKeyIsInjective(st.configs[id], c);
    }
    if c.IndexKey() in st.configKeys {
      var id := st.configKeys[c.IndexKey()];
      assert st.configs[id].IndexKey() == c.IndexKey();
    }
  }

  /** At most one configuration per scope and key. */
  lemma OneConfigPerKey(st: Store, i: string, j: string)
    requires Indexed(st) && i in st.configs && j in st.configs
    requires st.configs[i].scope == st.configs[j].scope && st.configs[i].key == st.configs[j].key
    ensures i == j
  {
    assert st.configKeys[st.configs[i].IndexKey()] == i;
  }

  /** The numbers of a configuration are exactly 1..n. */
  lemma NumbersAreContiguous(st: Store, id: string, k: int)
    requires Numbered(st) && Gapless(st)
    ensures VersionRef(id, k) in st.versions <==> 1 <= k < NextNumber(st.versions.Keys, id)
  {
    var n := NextNumber(st.versions.Keys, id);
    assert n > 1 ==> VersionRef(id, n - 1) in st.versions;
  }

  lemma FreshNumber(st: Store, id: string)
    requires Numbered(st) && Gapless(st)
    ensures var n := NextNumber(st.versions.Keys, id);
            VersionRef(id, n) !in st.versions && forall k :: 1 <= k < n ==> VersionRef(id, k) in st.versions
  {
    var n := NextNumber(st.versions.Keys, id);
    NumbersAreContiguous(st, id, n);
    forall k | 1 <= k < n ensures VersionRef(id, k) in st.versions {
      NumbersAreContiguous(st, id, k);
    }
  }

  /** Every reference names a version a release may carry. */
  predicate Releasable(versions: map<VersionRef, ConfigVersion>, refs: seq<VersionRef>) {
    forall i :: 0 <= i < |refs| ==> refs[i] in versions && versions[refs[i]].state in {Scheduled, Reviewing}
  }

  // ------------------------------------------------------- published versions

  function ConfigIDOf(v: ConfigVersion): string {
    v.configID
  }

  /** The published version of the configuration that no published version outnumbers. */
  ghost predicate HighestPublished(st: Store, v: ConfigVersion) {
    && v.Ref() in st.versions
    && st.versions[v.Ref()] == v
    && v.state == Published
    && (forall ref :: ref in st.versions && ref.configID == v.configID && st.versions[ref].state == Published ==>
                        ref.version <= v.number)
  }

  predicate Live(st: Store, scope: Scope, id: string) {
    id in st.configs && st.configs[id].scope == scope && !st.configs[id].archived
  }

  /** A published version that no stored version outnumbers is the one in force; an unpublished one never is. */
  lemma NewestPublishedIsInForce(st: Store, v: ConfigVersion)
    requires Filed(st) && v.Ref() in st.versions && st.versions[v.Ref()] == v
    requires forall ref :: ref in st.versions && ref.configID == v.configID ==> ref.version <= v.number
    ensures HighestPublished(st, v) <==> v.state == Published
  {
  }

  /** Of two published versions the smaller number is not in force. */
  lemma OutnumberedIsNotInForce(st: Store, v: ConfigVersion, w: ConfigVersion)
    requires Filed(st) && w.Ref() in st.versions && st.versions[w.Ref()] == w && w.state == Published
    requires v.configID == w.configID && v.number < w.number
    ensures !HighestPublished(st, v)
  {
  }

  /** The highest published version of each live configuration of the scope, by configuration id. */
  ghost predicate PublishedList(st: Store, scope: Scope, out: seq<ConfigVersion>) {
    && Text.Ascending(out, ConfigIDOf)
    && (forall v :: v in out <==> Live(st, scope, v.configID) && HighestPublished(st, v))
  }

  /** The partial answer of the scan once only the configurations in `todo` are left. */
  ghost predicate Collected(st: Store, scope: Scope, todo: set<string>, found: seq<ConfigVersion>) {
    && Text.DistinctKeys(found, ConfigIDOf)
    && (forall v :: v in found <==> v.configID !in todo && Live(st, scope, v.configID) && HighestPublished(st, v))
  }

  lemma CollectOne(
    st: Store, scope: Scope, todo: set<string>, found: seq<ConfigVersion>, id: string, best: Option<ConfigVersion>)
    requires Collected(st, scope, todo, found) && id in todo && Numbered(st)
    requires best.Some? ==> best.value.configID == id && Live(st, scope, id) && HighestPublished(st, best.value)
    requires best.None? && Live(st, scope, id) ==>
               forall ref :: ref in st.versions && ref.configID == id ==> !st.versions[ref].state.Published?
    ensures Collected(st, scope, todo - {id}, if best.Some? then found + [best.value] else found)
  {
    var out := if best.Some? then found + [best.value] else found;
    forall v: ConfigVersion
      ensures v in out <==> v.configID !in todo - {id} && Live(st, scope, v.configID) && HighestPublished(st, v)
    {
      assert v in out <==> v in found || best == Some(v);
      if v.configID == id && HighestPublished(st, v) && best.Some? {
        HighestIsUnique(st, v, best.value);
      }
    }
  }

  lemma HighestIsUnique(st: Store, v: ConfigVersion, w: ConfigVersion)
    requires HighestPublished(st, v) && HighestPublished(st, w) && v.configID == w.configID
    ensures v == w
  {
    assert st.versions[v.Ref()] == v && st.versions[w.Ref()] == w;
  }

  /** The configuration's versions but for those in `todo`, by ascending number and all below `todo`. */
  ghost predicate ListsVersions(
    versions: map<VersionRef, ConfigVersion>, id: string, todo: set<VersionRef>, all: seq<ConfigVersion>)
  {
    && (forall ref :: ref in todo ==> ref in versions && ref.configID == id)
    && (forall ref :: ref in versions && ref.configID == id && ref !in todo ==> versions[ref] in all)
    && (forall i :: 0 <= i < |all| ==>
                      all[i].configID == id && all[i].Ref() in versions && versions[all[i].Ref()] == all[i])
    && (forall i, ref :: 0 <= i < |all| && ref in todo ==> all[i].number < ref.version)
    && (forall i, j :: 0 <= i < j < |all| ==> all[i].number < all[j].number)
  }

  lemma ListNext(st: Store, id: string, todo: set<VersionRef>, all: seq<ConfigVersion>, ref: VersionRef)
    requires Filed(st) && ListsVersions(st.versions, id, todo, all)
    requires ref in todo && forall x :: x in todo ==> NumberOf(ref) <= NumberOf(x)
    ensures ListsVersions(st.versions, id, todo - {ref}, all + [st.versions[ref]])
  {
    var v, more := st.versions[ref], all + [st.versions[ref]];
    assert v.Ref() == ref;
    forall x | x in todo - {ref} ensures v.number < x.version {
      assert NumberOf(ref) <= NumberOf(x);
      assert x.configID == ref.configID && x != ref;
    }
    forall x | x in st.versions && x.configID == id && x !in todo - {ref} ensures st.versions[x] in more {
      assert x != ref ==> st.versions[x] in all;
    }
  }

  function NumberOf(ref: VersionRef): int {
    ref.version
  }

  class Memory {
    var configs: map<string, Config>
    var configKeys: map<string, string>
    var versions: map<VersionRef, ConfigVersion>

    ghost function State(): Store
      reads this
    {
      Store(configs, configKeys, versions)
    }

    /** What every method keeps, whatever it is given. */
    ghost predicate Valid()
      reads this
    {
      Indexed(State()) && Filed(State())
    }

    /** What the service's own checks and numbering add. */
    ghost predicate Sound()
      reads this
    {
      Valid() && Named(State()) && Numbered(State()) && Gapless(State())
    }

    constructor ()
      ensures Sound() && State() == Store(map[], map[], map[])
    {
      configs, configKeys, versions := map[], map[], map[];
    }

    method Create(c: Config) returns (err: Option<Error>)
      requires Valid()
      modifies this
      ensures Valid() && StoreWrite(State(), err) == CreateConfig(old(State()), c)
      ensures old(Sound()) && c.Valid() ==> Sound()
    {
      CreateKeepsIndex(State(), c);
      CreateKeepsVersions(State(), c);
      ghost var after := CreateConfig(State(), c).store;
      if c.id in configs {
        return Some(Conflict);
      }
      var key := c.IndexKey();
      if key in configKeys {
        return Some(Conflict);
      }
      configs := configs[c.id := c];
      configKeys := configKeys[key := c.id];
      assert State() == after;
      return None;
    }

    method Get(id: string) returns (r: Result<Config>)
      ensures r == if id in configs then Ok(configs[id]) else Err(NotFound)
    {
      if id !in configs {
        return Err(NotFound);
      }
      return Ok(configs[id]);
    }

    method GetVersion(id: string, num: int) returns (r: Result<ConfigVersion>)
      ensures r == if VersionRef(id, num) in versions then Ok(versions[VersionRef(id, num)]) else Err(NotFound)
    {
      if VersionRef(id, num) !in versions {
        return Err(NotFound);
      }
      return Ok(versions[VersionRef(id, num)]);
    }

    /** All versions of a configuration, by ascending number. */
    method ListVersions(id: string) returns (all: seq<ConfigVersion>)
      requires Valid()
      ensures ListsVersions(versions, id, {}, all)
    {
      var todo := set ref | ref in versions && ref.configID == id;
      all := [];
      while todo != {}
        invariant ListsVersions(versions, id, todo, all)
        decreases |todo|
      {
        Sorting.LeastExists(todo, NumberOf);
        var ref :| ref in todo && forall x :: x in todo ==> NumberOf(ref) <= NumberOf(x);
        ListNext(State(), id, todo, all, ref);
        all := all + [versions[ref]];
        todo := todo - {ref};
      }
    }

    method PutVersion(v: ConfigVersion) returns (err: Option<Error>)
      requires Valid()
      modifies this
      ensures Valid() && StoreWrite(State(), err) == InsertVersion(old(State()), v)
      ensures old(Sound()) && LeavesNoGap(old(versions), v) ==> Sound()
    {
      if v.configID !in configs {
        return Some(NotFound);
      }
      if v.Ref() in versions {
        return Some(Conflict);
      }
      versions := versions[v.Ref() := v];
      return None;
    }

    method UpdateVersion(v: ConfigVersion, expected: int) returns (err: Option<Error>)
      requires Valid()
      modifies this
      ensures Valid() && StoreWrite(State(), err) == ReplaceVersion(old(State()), v, expected)
      ensures old(Sound()) ==> Sound()
    {
      if v.Ref() !in versions {
        return Some(NotFound);
      }
      if versions[v.Ref()].revision != expected {
        return Some(Precondition);
      }
      versions := versions[v.Ref() := v];
      return None;
    }

    /** The scan of one configuration's versions in any map order, with number 0 as "none yet". */
    method Best(id: string) returns (best: Option<ConfigVersion>)
      requires Numbered(State())
      ensures best.Some? ==> best.value.configID == id && HighestPublished(State(), best.value)
      ensures best.None? ==> forall ref :: ref in versions && ref.configID == id ==> !versions[ref].state.Published?
    {
      var number := 0;
      best := None;
      var todo := set ref | ref in versions && ref.configID == id;
      while todo != {}
        invariant forall ref :: ref in todo ==> ref in versions && ref.configID == id
        invariant number == 0 <==> best.None?
        invariant best.Some? ==>
                    && best.value.Ref() in versions && versions[best.value.Ref()] == best.value
                    && best.value.configID == id && best.value.state.Published? && best.value.number == number
        invariant forall ref ::
                    ref in versions && ref.configID == id && ref !in todo && versions[ref].state.Published? ==>
                      ref.version <= number
        invariant number >= 0
        decreases |todo|
      {
        var ref :| ref in todo;
        todo := todo - {ref};
        var v := versions[ref];
        if v.state.Published? && (number == 0 || v.number > number) {
          best, number := Some(v), v.number;
        }
      }
    }

    method Published(scope: Scope) returns (out: seq<ConfigVersion>)
      requires Numbered(State())
      ensures PublishedList(State(), scope, out)
    {
      var found: seq<ConfigVersion> := [];
      var todo := configs.Keys;
      while todo != {}
        invariant todo <= configs.Keys
        invariant Collected(State(), scope, todo, found)
        decreases |todo|
      {
        var id :| id in todo;
        var best: Option<ConfigVersion> := None;
        if configs[id].scope == scope && !configs[id].archived {
          best := Best(id);
        }
        CollectOne(State(), scope, todo, found, id, best);
        todo := todo - {id};
        if best.Some? {
          found := found + [best.value];
        }
      }
      out := Text.SortBy(found, ConfigIDOf);
      Text.SortByAscends(found, ConfigIDOf);
      Sorting.SameMembers(out, found);
    }
  }
}
