/** The checks a new version must pass before it is stored (internal/application/service.go). */
module Drafting {
  import opened Common
  import opened ConfigRepository
  import C = ConfigDomain
  import Graph
  import Targeting
  import Text

  predicate DependsOnItself(c: C.Config, v: C.ConfigVersion) {
    exists i :: 0 <= i < |v.dependencies| && v.dependencies[i].required && v.dependencies[i].key == c.key
  }

  /** Every check of `CreateVersion` passes: the configuration exists, value, rules and dependencies are fine. */
  ghost predicate Acceptable(st: Store, id: string, v: C.ConfigVersion, valueOk: bool) {
    && id in st.configs && valueOk
    && (forall i :: 0 <= i < |v.rules| ==> C.ValidRule(v.rules[i]))
    && !ClosesCycle(st, id, v)
    && !DependsOnItself(st.configs[id], v)
  }

  /** The stored versions and a new node with the given dependencies form a directed cycle. */
  ghost predicate CycleWith(st: Store, id: string, number: int, deps: seq<C.Dependency>) {
    exists all :: ListsVersions(st.versions, id, {}, all)
                  && Graph.Cyclic(Graph.Add(Graph.VersionGraph(all), id + "@" + Text.Integer(number), deps))
  }

  /** Every check of a draft passes, stated over what the caller sent. */
  ghost predicate DraftAccepted(
    st: Store, id: string, rules: seq<C.TargetRule>, deps: seq<C.Dependency>, valueOk: bool)
  {
    && id in st.configs && valueOk
    && (forall i :: 0 <= i < |rules| ==> !C.BadRule(rules[i]))
    && !CycleWith(st, id, NextNumber(st.versions.Keys, id), deps)
    && (forall i :: 0 <= i < |deps| && deps[i].key == st.configs[id].key ==> !deps[i].required)
  }

  /** The error of a draft that is refused. */
  ghost function DraftRefusal(st: Store, id: string, rules: seq<C.TargetRule>, valueOk: bool): Error {
    if id !in st.configs then NotFound
    else if !valueOk || exists i :: 0 <= i < |rules| && C.BadRule(rules[i]) then InvalidValue
    else BadRequest
  }

  lemma SameRulesValid(rules: seq<C.TargetRule>, sorted: seq<C.TargetRule>)
    requires Targeting.StablySorted(rules, sorted)
    ensures (forall i :: 0 <= i < |sorted| ==> C.ValidRule(sorted[i])) <==>
            (forall i :: 0 <= i < |rules| ==> !C.BadRule(rules[i]))
  {
    var o: seq<nat> :| Targeting.SortedBy(rules, sorted, o);
    forall i | 0 <= i < |rules| ensures C.ValidRule(rules[i]) <==> !C.BadRule(rules[i]) {
      C.ValidIffNotBad(rules[i]);
    }
    if forall i :: 0 <= i < |sorted| ==> C.ValidRule(sorted[i]) {
      forall i: nat | i < |rules| ensures C.ValidRule(rules[i]) {
        var p := Targeting.PositionOf(o, i);
        assert sorted[p] == rules[i];
      }
    } else {
      var k :| 0 <= k < |sorted| && !C.ValidRule(sorted[k]);
      assert C.BadRule(rules[o[k]]);
    }
  }

  lemma ClosesCycleWith(st: Store, id: string, v: C.ConfigVersion)
    requires v.configID == id
    ensures ClosesCycle(st, id, v) <==> CycleWith(st, id, v.number, v.dependencies)
  {
    forall all: seq<C.ConfigVersion>
      ensures Graph.VersionGraph(all + [v])
              == Graph.Add(Graph.VersionGraph(all), id + "@" + Text.Integer(v.number), v.dependencies)
    {
      assert (all + [v])[..|all|] == all;
    }
  }

  /** A version made from a draft is acceptable exactly when the draft is. */
  lemma AcceptableIffDraftAccepted(
    st: Store, id: string, v: C.ConfigVersion, rules: seq<C.TargetRule>, deps: seq<C.Dependency>, valueOk: bool)
    requires v.configID == id && v.number == NextNumber(st.versions.Keys, id) && v.dependencies == deps
    requires Targeting.StablySorted(rules, v.rules)
    ensures Acceptable(st, id, v, valueOk) <==> DraftAccepted(st, id, rules, deps, valueOk)
    ensures !Acceptable(st, id, v, valueOk) ==> Refusal(st, id, v, valueOk) == DraftRefusal(st, id, rules, valueOk)
  {
    SameRulesValid(rules, v.rules);
    ClosesCycleWith(st, id, v);
  }

  /** What the dependency check accepts, given the store it reads. */
  ghost function DependencyCheck(): (Store, C.ConfigVersion) -> bool {
    (st: Store, v: C.ConfigVersion) =>
      v.configID in st.configs && !ClosesCycle(st, v.configID, v) && !DependsOnItself(st.configs[v.configID], v)
  }

  /** The error of a version that is not acceptable. */
  ghost function Refusal(st: Store, id: string, v: C.ConfigVersion, valueOk: bool): Error {
    if id !in st.configs then NotFound
    else if valueOk && forall i :: 0 <= i < |v.rules| ==> C.ValidRule(v.rules[i]) then BadRequest
    else InvalidValue
  }

  /** The graph of the configuration's stored versions and the new one has a directed cycle. */
  ghost predicate ClosesCycle(st: Store, id: string, v: C.ConfigVersion) {
    exists all :: ListsVersions(st.versions, id, {}, all) && Graph.Cyclic(Graph.VersionGraph(all + [v]))
  }

  /** There is one listing, so the one that was read decides. */
  lemma TheListingDecides(st: Store, id: string, v: C.ConfigVersion, versions: seq<C.ConfigVersion>)
    requires ListsVersions(st.versions, id, {}, versions)
    ensures ClosesCycle(st, id, v) <==> Graph.Cyclic(Graph.VersionGraph(versions + [v]))
  {
    forall all | ListsVersions(st.versions, id, {}, all) ensures all == versions {
      SameListing(st.versions, id, all, versions);
    }
  }

  /**
   The dependency check as callers meet it: while dependency keys have no `@`, as every valid key has
   none, exactly the required self-references are refused and no longer cycle is.
   */
  lemma DependencyCheckIsSelfCheck(st: Store, id: string, v: C.ConfigVersion)
    requires id in st.configs && forall i :: 0 <= i < |v.rules| ==> C.ValidRule(v.rules[i])
    requires PlainKeys(v) && forall ref :: ref in st.versions && ref.configID == id ==> PlainKeys(st.versions[ref])
    ensures Acceptable(st, id, v, true) <==> !DependsOnItself(st.configs[id], v)
  {
    forall all | ListsVersions(st.versions, id, {}, all) ensures !Graph.Cyclic(Graph.VersionGraph(all + [v])) {
      forall i | 0 <= i < |all + [v]| ensures PlainKeys((all + [v])[i]) {
        assert i < |all| ==> all[i].Ref() in st.versions;
      }
      Graph.NoCycleAmongVersionNodes(all + [v]);
    }
  }

  /** No dependency key of the version contains an `@`. */
  predicate PlainKeys(v: C.ConfigVersion) {
    forall j :: 0 <= j < |v.dependencies| ==> '@' !in v.dependencies[j].key
  }

  lemma SameListing(
    versions: map<VersionRef, C.ConfigVersion>, id: string, s: seq<C.ConfigVersion>, t: seq<C.ConfigVersion>)
    requires ListsVersions(versions, id, {}, s) && ListsVersions(versions, id, {}, t)
    ensures s == t
  {
    forall v | v in s ensures v in t {
    }
    forall v | v in t ensures v in s {
    }
    AscendingNumbersAreUnique(s, t);
  }

  lemma {:induction false} AscendingNumbersAreUnique(s: seq<C.ConfigVersion>, t: seq<C.ConfigVersion>)
    requires forall i, j :: 0 <= i < j < |s| ==> s[i].number < s[j].number
    requires forall i, j :: 0 <= i < j < |t| ==> t[i].number < t[j].number
    requires forall v :: v in s <==> v in t
    ensures s == t
  {
    assert s != [] ==> s[0] in t;
    assert t != [] ==> t[0] in s;
    if s != [] && t != [] {
      var i :| 0 <= i < |t| && t[i] == s[0];
      var j :| 0 <= j < |s| && s[j] == t[0];
      assert s[0] == t[0];
      forall v ensures v in s[1..] <==> v in t[1..] {
        assert v in s <==> v == s[0] || v in s[1..];
        assert v in t <==> v == t[0] || v in t[1..];
      }
      AscendingNumbersAreUnique(s[1..], t[1..]);
      assert s == [s[0]] + s[1..] && t == [t[0]] + t[1..];
    }
  }
}
