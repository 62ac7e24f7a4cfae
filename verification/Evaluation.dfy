/** What `Service.Evaluate` serves and what its entity tag identifies (internal/application/service.go). */
module Evaluation {
  import opened Common
  import opened ConfigDomain
  import opened ConfigRepository
  import Targeting
  import Sorting
  import Text

  /** One served version; the id orders the tag's seed but is not part of the answer. */
  datatype Row = Row(id: string, key: string, version: int, value: ConfigValue)

  datatype EvaluatedConfig = EvaluatedConfig(
    key: string, value: ConfigValue, version: int, rule: Targeting.Evaluation, proof: string)

  datatype Response = Response(configs: seq<EvaluatedConfig>, etag: string, notModified: bool)

  /** What the answer tells a client about one configuration. */
  datatype Triple = Triple(key: string, version: int, value: ConfigValue)

  type Sign = string -> string

  ghost predicate Injective(sign: Sign) {
    forall a, b :: sign(a) == sign(b) ==> a == b
  }

  /** The clock is read twice for each version: for its expiry and for its rules. */
  datatype Reading = Reading(expiry: int, rules: int)

  /** The readings made for each configuration; a configuration is met at most once. */
  type Clock = string -> Reading

  function RowID(r: Row): string { r.id }
  function ItemKey(c: EvaluatedConfig): string { c.key }
  function TripleKey(t: Triple): string { t.key }

  function Strip(r: Row): Triple {
    Triple(r.key, r.version, r.value)
  }

  function Triples(configs: seq<EvaluatedConfig>): seq<Triple> {
    seq(|configs|, i requires 0 <= i < |configs| => Triple(configs[i].key, configs[i].version, configs[i].value))
  }

  /** Not expired, and selected by a rule unless there are no rules. */
  predicate Served(v: ConfigVersion, subject: Targeting.Subject, clock: Clock, hash: Targeting.Hash) {
    && !(v.expiresAt.Some? && clock(v.configID).expiry >= v.expiresAt.value)
    && (|v.rules| > 0 ==>
          Targeting.FirstPassing(Targeting.SortRules(v.rules), 0, subject, clock(v.configID).rules, hash)
          < |Targeting.SortRules(v.rules)|)
  }

  /** A version is served exactly before its expiry, if any, and to subjects that qualify for a rule, if any. */
  lemma ServedIff(v: ConfigVersion, subject: Targeting.Subject, clock: Clock, hash: Targeting.Hash)
    ensures Served(v, subject, clock, hash) <==>
            && (forall e :: v.expiresAt == Some(e) ==> clock(v.configID).expiry < e)
            && (v.rules == [] || exists i :: 0 <= i < |v.rules|
                                             && Targeting.Qualifies(v.rules[i], subject, clock(v.configID).rules, hash))
  {
    Targeting.MatchIffQualified(v.rules, subject, clock(v.configID).rules, hash);
  }

  /** The row stands for the highest published version of a live configuration of the scope. */
  ghost predicate PublishedRow(st: Store, scope: Scope, r: Row) {
    && Live(st, scope, r.id)
    && VersionRef(r.id, r.version) in st.versions
    && HighestPublished(st, st.versions[VersionRef(r.id, r.version)])
    && r.key == st.configs[r.id].key
    && r.value == st.versions[VersionRef(r.id, r.version)].value
  }

  /** Archived configurations and those of other scopes have no rows; a live one's newest published version has. */
  lemma RowsAreOfLiveConfigs(st: Store, scope: Scope, v: ConfigVersion)
    requires Filed(st) && v.Ref() in st.versions && st.versions[v.Ref()] == v && v.state == Published
    requires forall ref :: ref in st.versions && ref.configID == v.configID ==> ref.version <= v.number
    ensures PublishedRow(st, scope, RowFor(st, v)) <==>
            st.configs[v.configID].scope == scope && !st.configs[v.configID].archived
  {
    NewestPublishedIsInForce(st, v);
  }

  /** Rows of the scope by ascending configuration id, selected in whatever way. */
  ghost predicate PublishedRows(st: Store, scope: Scope, rows: seq<Row>) {
    Text.Ascending(rows, RowID) && forall r :: r in rows ==> PublishedRow(st, scope, r)
  }

  /** The rows an evaluation serves, by ascending configuration id. */
  ghost predicate ServedRows(
    st: Store, scope: Scope, subject: Targeting.Subject, clock: Clock, hash: Targeting.Hash, rows: seq<Row>)
  {
    && Text.Ascending(rows, RowID)
    && (forall r :: r in rows <==>
                      PublishedRow(st, scope, r)
                      && Served(st.versions[VersionRef(r.id, r.version)], subject, clock, hash))
  }

  function RowFor(st: Store, v: ConfigVersion): Row
    requires v.configID in st.configs
  {
    Row(v.configID, st.configs[v.configID].key, v.number, v.value)
  }

  /** The filter the evaluation loop applies to the published list. */
  function Serve(
    st: Store, vs: seq<ConfigVersion>, subject: Targeting.Subject, clock: Clock, hash: Targeting.Hash): seq<Row>
    requires forall i :: 0 <= i < |vs| ==> vs[i].configID in st.configs
  {
    if vs == [] then []
    else
      var last := vs[|vs| - 1];
      Serve(st, vs[..|vs| - 1], subject, clock, hash)
      + (if Served(last, subject, clock, hash) then [RowFor(st, last)] else [])
  }

  lemma {:induction false} ServeMembers(
    st: Store, vs: seq<ConfigVersion>, subject: Targeting.Subject, clock: Clock, hash: Targeting.Hash, r: Row)
    requires forall i :: 0 <= i < |vs| ==> vs[i].configID in st.configs
    ensures r in Serve(st, vs, subject, clock, hash) <==>
            exists i :: 0 <= i < |vs| && Served(vs[i], subject, clock, hash) && r == RowFor(st, vs[i])
  {
    if vs != [] {
      var front, last := vs[..|vs| - 1], vs[|vs| - 1];
      ServeMembers(st, front, subject, clock, hash, r);
      if r in Serve(st, front, subject, clock, hash) {
        var i :| 0 <= i < |front| && Served(front[i], subject, clock, hash) && r == RowFor(st, front[i]);
        assert vs[i] == front[i];
      }
      if i :| 0 <= i < |vs| && Served(vs[i], subject, clock, hash) && r == RowFor(st, vs[i]) {
        assert i < |front| ==> front[i] == vs[i];
      }
    }
  }

  lemma {:induction false} ServeAscends(
    st: Store, vs: seq<ConfigVersion>, subject: Targeting.Subject, clock: Clock, hash: Targeting.Hash)
    requires forall i :: 0 <= i < |vs| ==> vs[i].configID in st.configs
    requires Text.Ascending(vs, ConfigIDOf)
    ensures Text.Ascending(Serve(st, vs, subject, clock, hash), RowID)
  {
    if vs != [] {
      var front := vs[..|vs| - 1];
      assert forall i, j :: 0 <= i < j < |front| ==> Text.Below(ConfigIDOf(vs[i]), ConfigIDOf(vs[j]));
      ServeAscends(st, front, subject, clock, hash);
      var rows := Serve(st, front, subject, clock, hash);
      forall k | 0 <= k < |rows| ensures Text.Below(RowID(rows[k]), ConfigIDOf(vs[|vs| - 1])) {
        ServeMembers(st, front, subject, clock, hash, rows[k]);
        var i :| 0 <= i < |front| && Served(front[i], subject, clock, hash) && rows[k] == RowFor(st, front[i]);
        assert Text.Below(ConfigIDOf(vs[i]), ConfigIDOf(vs[|vs| - 1]));
      }
    }
  }

  /** Filtering the published list yields the served rows. */
  lemma ServeIsServedRows(
    st: Store, scope: Scope, vs: seq<ConfigVersion>, subject: Targeting.Subject, clock: Clock, hash: Targeting.Hash)
    requires Numbered(st) && PublishedList(st, scope, vs)
    ensures forall i :: 0 <= i < |vs| ==> vs[i].configID in st.configs
    ensures ServedRows(st, scope, subject, clock, hash, Serve(st, vs, subject, clock, hash))
  {
    forall i | 0 <= i < |vs| ensures vs[i].configID in st.configs {
      assert vs[i] in vs;
    }
    ServeAscends(st, vs, subject, clock, hash);
    forall r: Row
      ensures r in Serve(st, vs, subject, clock, hash) <==>
              PublishedRow(st, scope, r) && Served(st.versions[VersionRef(r.id, r.version)], subject, clock, hash)
    {
      ServeMembers(st, vs, subject, clock, hash, r);
      if PublishedRow(st, scope, r) && Served(st.versions[VersionRef(r.id, r.version)], subject, clock, hash) {
        var v := st.versions[VersionRef(r.id, r.version)];
        assert v.Ref() == VersionRef(r.id, r.version);
        assert v in vs;
        var i :| 0 <= i < |vs| && vs[i] == v;
        assert r == RowFor(st, vs[i]);
      }
      if i :| 0 <= i < |vs| && Served(vs[i], subject, clock, hash) && r == RowFor(st, vs[i]) {
        assert vs[i] in vs;
      }
    }
  }

  /** Rows of one scope have distinct keys. */
  lemma RowKeysAreDistinct(
    st: Store, scope: Scope, subject: Targeting.Subject, clock: Clock, hash: Targeting.Hash,
    rows: seq<Row>, i: nat, j: nat)
    requires Indexed(st) && ServedRows(st, scope, subject, clock, hash, rows) && i < j < |rows|
    ensures rows[i].key != rows[j].key
  {
    assert rows[i] in rows && rows[j] in rows;
    Text.BelowIsTotal(rows[i].id, rows[j].id);
    assert Text.Below(RowID(rows[i]), RowID(rows[j]));
    if rows[i].key == rows[j].key {
      OneConfigPerKey(st, rows[i].id, rows[j].id);
    }
  }

  /** The item a row is answered with: its content, the outcome of its rules and a proof over its name. */
  ghost predicate ItemFor(
    st: Store, scope: Scope, subject: Targeting.Subject, clock: Clock, hash: Targeting.Hash, sign: Sign,
    r: Row, c: EvaluatedConfig)
  {
    && VersionRef(r.id, r.version) in st.versions
    && Targeting.Outcome(st.versions[VersionRef(r.id, r.version)].rules, subject, clock(r.id).rules, hash, c.rule)
    && c.key == r.key && c.version == r.version && c.value == r.value
    && c.proof == sign(Claim(scope, r.key, r.version))
  }

  /** The items answer for the rows, one for one. */
  ghost predicate ItemsFor(
    st: Store, scope: Scope, subject: Targeting.Subject, clock: Clock, hash: Targeting.Hash, sign: Sign,
    rows: seq<Row>, items: seq<EvaluatedConfig>)
  {
    && |items| == |rows|
    && (forall i :: 0 <= i < |rows| ==> ItemFor(st, scope, subject, clock, hash, sign, rows[i], items[i]))
  }

  lemma ItemsOneMore(
    st: Store, scope: Scope, subject: Targeting.Subject, clock: Clock, hash: Targeting.Hash, sign: Sign,
    rows: seq<Row>, items: seq<EvaluatedConfig>, r: Row, c: EvaluatedConfig)
    requires ItemsFor(st, scope, subject, clock, hash, sign, rows, items)
    requires ItemFor(st, scope, subject, clock, hash, sign, r, c)
    ensures ItemsFor(st, scope, subject, clock, hash, sign, rows + [r], items + [c])
  {
  }

  /** Sorting the items of the rows by key answers for the rows. */
  lemma SortedItemsAnswer(
    st: Store, scope: Scope, subject: Targeting.Subject, clock: Clock, hash: Targeting.Hash,
    rows: seq<Row>, items: seq<EvaluatedConfig>, sign: Sign, resp: Response)
    requires Indexed(st) && ServedRows(st, scope, subject, clock, hash, rows)
    requires ItemsFor(st, scope, subject, clock, hash, sign, rows, items)
    requires resp.configs == Text.SortBy(items, ItemKey)
    requires resp.etag == "\\\"" + sign(Seed(rows)) + "\\\""
    ensures Answers(rows, sign, resp)
    ensures Itemized(st, scope, subject, clock, hash, sign, rows, resp.configs)
  {
    forall i, j | 0 <= i < j < |items| ensures ItemKey(items[i]) != ItemKey(items[j]) {
      RowKeysAreDistinct(st, scope, subject, clock, hash, rows, i, j);
    }
    Text.SortByAscends(items, ItemKey);
    Sorting.SameMembers(resp.configs, items);
    TriplesOfMembers(rows, items, resp.configs);
    forall c | c in resp.configs
      ensures exists i :: 0 <= i < |rows| && ItemFor(st, scope, subject, clock, hash, sign, rows[i], c)
    {
      var i :| 0 <= i < |items| && items[i] == c;
      assert ItemFor(st, scope, subject, clock, hash, sign, rows[i], c);
    }
  }

  /** Every listed item answers for one of the rows. */
  ghost predicate Itemized(
    st: Store, scope: Scope, subject: Targeting.Subject, clock: Clock, hash: Targeting.Hash, sign: Sign,
    rows: seq<Row>, configs: seq<EvaluatedConfig>)
  {
    forall c :: c in configs ==>
                  exists i :: 0 <= i < |rows| && ItemFor(st, scope, subject, clock, hash, sign, rows[i], c)
  }

  lemma TriplesOfMembers(rows: seq<Row>, items: seq<EvaluatedConfig>, configs: seq<EvaluatedConfig>)
    requires |items| == |rows| && forall c :: c in configs <==> c in items
    requires forall i :: 0 <= i < |rows| ==> Triple(items[i].key, items[i].version, items[i].value) == Strip(rows[i])
    ensures forall t :: t in Triples(configs) <==> exists i :: 0 <= i < |rows| && Strip(rows[i]) == t
  {
    forall t ensures t in Triples(configs) <==> exists i :: 0 <= i < |rows| && Strip(rows[i]) == t {
      if t in Triples(configs) {
        var k :| 0 <= k < |configs| && Triples(configs)[k] == t;
        assert configs[k] in items;
        var i :| 0 <= i < |items| && items[i] == configs[k];
        assert Strip(rows[i]) == t;
      }
      if i :| 0 <= i < |rows| && Strip(rows[i]) == t {
        assert items[i] in configs;
        var k :| 0 <= k < |configs| && configs[k] == items[i];
        assert Triples(configs)[k] == t;
      }
    }
  }

  function Entry(r: Row): string {
    r.key + ":" + Text.Integer(r.version) + ";"
  }

  function Seed(rows: seq<Row>): string {
    if rows == [] then "" else Entry(rows[0]) + Seed(rows[1..])
  }

  lemma {:induction false} SeedAppend(rows: seq<Row>, r: Row)
    ensures Seed(rows + [r]) == Seed(rows) + Entry(r)
  {
    if rows == [] {
      assert [r][1..] == [];
    } else {
      SeedAppend(rows[1..], r);
      assert (rows + [r])[1..] == rows[1..] + [r];
      var e, tail, last := Entry(rows[0]), Seed(rows[1..]), Entry(r);
      assert e + (tail + last) == (e + tail) + last;
    }
  }

  /** The answer for the given rows: listed by key, tagged by the signed seed. */
  ghost predicate Answers(rows: seq<Row>, sign: Sign, resp: Response) {
    && resp.etag == "\\\"" + sign(Seed(rows)) + "\\\""
    && Text.Ascending(resp.configs, ItemKey)
    && (forall t :: t in Triples(resp.configs) <==> exists i :: 0 <= i < |rows| && Strip(rows[i]) == t)
  }

  // ---------------------------------------------------- seeds and row lists

  /** A key in the alphabet of names and a positive version. */
  ghost predicate Encodable(r: Row) {
    ValidName(r.key) && r.version >= 1
  }

  lemma EntryIsInjective(a: Row, b: Row, x: string, y: string)
    requires Encodable(a) && Encodable(b) && Entry(a) + x == Entry(b) + y
    ensures a.key == b.key && a.version == b.version && x == y
  {
    var m, n := Text.Decimal(a.version), Text.Decimal(b.version);
    NamesHaveNoSeparators(a.key);
    NamesHaveNoSeparators(b.key);
    Text.DecimalIsDigits(a.version);
    Text.DecimalIsDigits(b.version);
    assert Entry(a) + x == a.key + [':'] + (m + [';'] + x);
    assert Entry(b) + y == b.key + [':'] + (n + [';'] + y);
    Text.SplitIsUnique(a.key, b.key, m + [';'] + x, n + [';'] + y, ':');
    Text.SplitIsUnique(m, n, x, y, ';');
    Text.DecimalIsInjective(a.version, b.version);
  }

  /** What an item's proof signs: scope, key and version. */
  function Claim(scope: Scope, key: string, version: int): string {
    scope.Key() + "/" + key + "/" + Text.Integer(version)
  }

  /** A proof vouches for one scope, key and version: with an injective signature no two share it. */
  lemma ProofsIdentify(sign: Sign, a: Config, b: Config, m: nat, n: nat)
    requires Injective(sign) && a.Valid() && b.Valid()
    ensures sign(Claim(a.scope, a.key, m)) == sign(Claim(b.scope, b.key, n)) <==>
            a.scope == b.scope && a.key == b.key && m == n
  {
    if Claim(a.scope, a.key, m) == Claim(b.scope, b.key, n) {
      ClaimsIdentify(a, b, m, n);
    }
  }

  lemma ClaimsIdentify(a: Config, b: Config, m: nat, n: nat)
    requires a.Valid() && b.Valid() && Claim(a.scope, a.key, m) == Claim(b.scope, b.key, n)
    ensures a.scope == b.scope && a.key == b.key && m == n
  {
    var x, y := Text.Decimal(m), Text.Decimal(n);
    Text.DecimalIsDigits(m);
    Text.DecimalIsDigits(n);
    LastSeparatorSplits(a.IndexKey(), b.IndexKey(), x, y);
    Text.DecimalIsInjective(m, n);
    IndexKeyIsInjective(a, b);
  }

  lemma BehindTheSeparator(a: string, x: string, i: int)
    requires |a| < i < |a + "/" + x|
    ensures (a + "/" + x)[i] in x
  {
    assert (a + "/" + x)[i] == x[i - |a| - 1];
  }

  lemma NotLonger(a: string, b: string, x: string, y: string)
    requires '/' !in y && a + "/" + x == b + "/" + y
    ensures |a| <= |b|
  {
    assert (a + "/" + x)[|a|] == '/';
    if |b| < |a| { BehindTheSeparator(b, y, |a|); }
  }

  /** With no separator in the last part, the last separator ends the text before it. */
  lemma LastSeparatorSplits(a: string, b: string, x: string, y: string)
    requires '/' !in x && '/' !in y && a + "/" + x == b + "/" + y
    ensures a == b && x == y
  {
    var s, t := a + "/" + x, b + "/" + y;
    NotLonger(a, b, x, y);
    NotLonger(b, a, y, x);
    assert a == s[..|a|] && b == t[..|b|] && x == s[|a| + 1..] && y == t[|b| + 1..];
  }

  lemma {:induction false} SeedIsInjective(s: seq<Row>, t: seq<Row>)
    requires forall i :: 0 <= i < |s| ==> Encodable(s[i])
    requires forall i :: 0 <= i < |t| ==> Encodable(t[i])
    requires Seed(s) == Seed(t)
    ensures |s| == |t|
    ensures forall i :: 0 <= i < |s| ==> s[i].key == t[i].key && s[i].version == t[i].version
  {
    assert s != [] ==> |Seed(s)| > 0;
    assert t != [] ==> |Seed(t)| > 0;
    if s != [] {
      EntryIsInjective(s[0], t[0], Seed(s[1..]), Seed(t[1..]));
      SeedIsInjective(s[1..], t[1..]);
      forall i | 0 <= i < |s| ensures s[i].key == t[i].key && s[i].version == t[i].version {
        if i > 0 { assert s[i] == s[1..][i - 1] && t[i] == t[1..][i - 1]; }
      }
    }
  }

  /** Across both lists a key names one configuration and a key with a version names one value. */
  ghost predicate Coherent(s: seq<Row>, t: seq<Row>) {
    forall i, j :: 0 <= i < |s| && 0 <= j < |t| && s[i].key == t[j].key ==>
                     s[i].id == t[j].id && (s[i].version == t[j].version ==> s[i].value == t[j].value)
  }

  /** Equal seeds are equal row lists. */
  lemma EqualSeedsMeanEqualRows(s: seq<Row>, t: seq<Row>)
    requires forall i :: 0 <= i < |s| ==> Encodable(s[i])
    requires forall i :: 0 <= i < |t| ==> Encodable(t[i])
    requires Coherent(s, t)
    ensures Seed(s) == Seed(t) <==> s == t
  {
    if Seed(s) == Seed(t) {
      SeedIsInjective(s, t);
      forall i | 0 <= i < |s| ensures s[i] == t[i] {
      }
    }
  }

  lemma TriplesHaveUniqueRows(s: seq<Row>, t: seq<Row>)
    requires Coherent(s, t)
    requires forall i :: 0 <= i < |s| ==> exists j :: 0 <= j < |t| && Strip(s[i]) == Strip(t[j])
    ensures forall r :: r in s ==> r in t
  {
    forall r | r in s ensures r in t {
      var i :| 0 <= i < |s| && s[i] == r;
      var j :| 0 <= j < |t| && Strip(s[i]) == Strip(t[j]);
      assert t[j] == r;
    }
  }

  /** Equal answers come from equal row lists, and equal row lists give equal answers. */
  lemma EqualAnswersMeanEqualRows(s: seq<Row>, t: seq<Row>, sign: Sign, a: Response, b: Response)
    requires Text.Ascending(s, RowID) && Text.Ascending(t, RowID) && Coherent(s, t) && Coherent(t, s)
    requires Answers(s, sign, a) && Answers(t, sign, b)
    ensures Triples(a.configs) == Triples(b.configs) <==> s == t
  {
    if Triples(a.configs) == Triples(b.configs) {
      forall i | 0 <= i < |s| ensures exists j :: 0 <= j < |t| && Strip(s[i]) == Strip(t[j]) {
        assert Strip(s[i]) in Triples(a.configs);
      }
      forall i | 0 <= i < |t| ensures exists j :: 0 <= j < |s| && Strip(t[i]) == Strip(s[j]) {
        assert Strip(t[i]) in Triples(b.configs);
      }
      TriplesHaveUniqueRows(s, t);
      TriplesHaveUniqueRows(t, s);
      Text.AscendingIsUnique(s, t, RowID);
    } else if s == t {
      TriplesAscend(a.configs);
      TriplesAscend(b.configs);
      Text.AscendingIsUnique(Triples(a.configs), Triples(b.configs), TripleKey);
    }
  }

  lemma TriplesAscend(configs: seq<EvaluatedConfig>)
    requires Text.Ascending(configs, ItemKey)
    ensures Text.Ascending(Triples(configs), TripleKey)
  {
    var t := Triples(configs);
    forall i, j | 0 <= i < j < |t| ensures Text.Below(TripleKey(t[i]), TripleKey(t[j])) {
      assert Text.Below(ItemKey(configs[i]), ItemKey(configs[j]));
    }
  }
}
