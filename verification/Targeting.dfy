/** Rule evaluation for one subject (internal/configdomain/targeting.go). */
module Targeting {
  import opened Common
  import opened ConfigDomain

  datatype Subject = Subject(
    tenantID: string, labels: map<string, string>, attributes: map<string, string>, deviceID: string)

  datatype Reason =
    | Disabled
    | WindowNotStarted
    | WindowEnded
    | ExperimentTaken
    | LabelMismatch
    | AttributeMismatch
    | OutsideBucket(bucket: int, percentage: int)
    | Matched

  datatype Explanation = Explanation(ruleID: string, matched: bool, reason: Reason, bucket: int, priority: int)

  datatype Evaluation = Evaluation(matched: bool, ruleID: string, explanations: seq<Explanation>)

  type Percentile = n: nat | n < 100

  /** The hash bucket of a rule and an identity; any function into 0..99. */
  type Hash = (string, string) -> Percentile

  /** A missing key reads as the empty string, so a required empty value is met by absence. */
  predicate Contains(have: map<string, string>, want: map<string, string>) {
    forall k :: k in want ==> Lookup(have, k) == want[k]
  }

  function Identity(rule: TargetRule, subject: Subject): string {
    var attribute := Lookup(subject.attributes, rule.hashAttribute);
    if attribute != "" then attribute
    else if subject.deviceID != "" then subject.deviceID
    else subject.tenantID
  }

  /** The verdict on one rule when no experiment has been selected before it. */
  function Verdict(rule: TargetRule, subject: Subject, at: int, hash: Hash): Reason {
    if !rule.enabled then Disabled
    else if rule.startsAt.Some? && at < rule.startsAt.value then WindowNotStarted
    else if rule.endsAt.Some? && at >= rule.endsAt.value then WindowEnded
    else if !Contains(subject.labels, rule.requiredLabels) then LabelMismatch
    else if !Contains(subject.attributes, rule.requiredAttributes) then AttributeMismatch
    else
      var bucket := hash(rule.id, Identity(rule, subject));
      if bucket >= rule.percentage then OutsideBucket(bucket, rule.percentage) else Matched
  }

  predicate Passes(rule: TargetRule, subject: Subject, at: int, hash: Hash) {
    Verdict(rule, subject, at, hash) == Matched
  }

  // -------------------------------------------------- which subjects qualify

  /** The required value is carried: present with that value, or, if it is empty, absent or empty. */
  predicate Carried(have: map<string, string>, key: string, value: string) {
    if value == "" then key !in have || have[key] == "" else key in have && have[key] == value
  }

  ghost predicate CarriesAll(have: map<string, string>, want: map<string, string>) {
    forall k :: k in want ==> Carried(have, k, want[k])
  }

  /** The instant lies in the rule's window, whose bounds may be missing. */
  ghost predicate InWindow(rule: TargetRule, at: int) {
    (forall s :: rule.startsAt == Some(s) ==> s <= at) && (forall e :: rule.endsAt == Some(e) ==> at < e)
  }

  /** The subject is hashed by its hash attribute, without one by its device, without one by its tenant. */
  ghost predicate HashedBy(rule: TargetRule, subject: Subject, who: string) {
    var key := rule.hashAttribute;
    && (key in subject.attributes && subject.attributes[key] != "" ==> who == subject.attributes[key])
    && (Carried(subject.attributes, key, "") && subject.deviceID != "" ==> who == subject.deviceID)
    && (Carried(subject.attributes, key, "") && subject.deviceID == "" ==> who == subject.tenantID)
  }

  /** The subject falls into the rule's share. */
  ghost predicate InShare(rule: TargetRule, subject: Subject, hash: Hash) {
    exists who :: HashedBy(rule, subject, who) && hash(rule.id, who) < rule.percentage
  }

  /** Everything the rule asks of the subject and the instant. */
  ghost predicate Qualifies(rule: TargetRule, subject: Subject, at: int, hash: Hash) {
    && rule.enabled && InWindow(rule, at)
    && CarriesAll(subject.labels, rule.requiredLabels) && CarriesAll(subject.attributes, rule.requiredAttributes)
    && InShare(rule, subject, hash)
  }

  lemma ContainsIffCarried(have: map<string, string>, want: map<string, string>)
    ensures Contains(have, want) <==> CarriesAll(have, want)
  {
    forall k | k in want ensures Lookup(have, k) == want[k] <==> Carried(have, k, want[k]) {
    }
  }

  lemma IdentityIsHashed(rule: TargetRule, subject: Subject, who: string)
    ensures HashedBy(rule, subject, who) <==> who == Identity(rule, subject)
  {
  }

  /** A rule passes exactly for the subjects that qualify. */
  lemma PassesIffQualifies(rule: TargetRule, subject: Subject, at: int, hash: Hash)
    ensures Passes(rule, subject, at, hash) <==> Qualifies(rule, subject, at, hash)
  {
    ContainsIffCarried(subject.labels, rule.requiredLabels);
    ContainsIffCarried(subject.attributes, rule.requiredAttributes);
    IdentityIsHashed(rule, subject, Identity(rule, subject));
    forall who | HashedBy(rule, subject, who) ensures who == Identity(rule, subject) {
      IdentityIsHashed(rule, subject, who);
    }
  }

  /** No reason is given falsely: each one names the first thing that is missing. */
  lemma ReasonsAreTrue(rule: TargetRule, subject: Subject, at: int, hash: Hash)
    ensures var v := Verdict(rule, subject, at, hash);
            && (v == Disabled <==> !rule.enabled)
            && (v == WindowNotStarted || v == WindowEnded <==> rule.enabled && !InWindow(rule, at))
            && (v == WindowNotStarted ==> rule.startsAt.Some? && at < rule.startsAt.value)
            && (v == WindowEnded ==> rule.endsAt.Some? && rule.endsAt.value <= at)
            && (v == LabelMismatch <==>
                rule.enabled && InWindow(rule, at) && !CarriesAll(subject.labels, rule.requiredLabels))
            && (v == AttributeMismatch <==>
                && rule.enabled && InWindow(rule, at) && CarriesAll(subject.labels, rule.requiredLabels)
                && !CarriesAll(subject.attributes, rule.requiredAttributes))
            && v != ExperimentTaken
            && (v.OutsideBucket? ==> v.bucket >= v.percentage == rule.percentage && !InShare(rule, subject, hash))
  {
    ContainsIffCarried(subject.labels, rule.requiredLabels);
    ContainsIffCarried(subject.attributes, rule.requiredAttributes);
    forall who | HashedBy(rule, subject, who) ensures who == Identity(rule, subject) {
      IdentityIsHashed(rule, subject, who);
    }
  }

  function Explain(rule: TargetRule, subject: Subject, at: int, hash: Hash): Explanation {
    var v := Verdict(rule, subject, at, hash);
    Explanation(rule.id, v == Matched, v,
                if v == Matched || v.OutsideBucket? then hash(rule.id, Identity(rule, subject)) else 0,
                rule.priority)
  }

  /** An explanation names its rule, says whether it passed and gives the bucket once the rule got that far. */
  lemma ExplanationsNameTheirRule(rule: TargetRule, subject: Subject, at: int, hash: Hash)
    ensures var x := Explain(rule, subject, at, hash);
            && x.ruleID == rule.id && x.priority == rule.priority
            && (x.matched <==> Qualifies(rule, subject, at, hash)) && (x.matched <==> x.reason == Matched)
            && (x.matched || x.reason.OutsideBucket? ==>
                  forall who :: HashedBy(rule, subject, who) ==> x.bucket == hash(rule.id, who))
            && (x.reason.OutsideBucket? ==> x.reason.bucket == x.bucket)
  {
    PassesIffQualifies(rule, subject, at, hash);
    forall who | HashedBy(rule, subject, who) ensures who == Identity(rule, subject) {
      IdentityIsHashed(rule, subject, who);
    }
  }

  // ------------------------------------------------ the stable priority order

  function Priorities(rules: seq<TargetRule>): seq<int> {
    seq(|rules|, i requires 0 <= i < |rules| => rules[i].priority)
  }

  /** Index i comes before index j: higher priority, or equal priority and earlier in the list. */
  predicate Precedes(ranks: seq<int>, i: nat, j: nat)
    requires i < |ranks| && j < |ranks|
  {
    ranks[i] > ranks[j] || (ranks[i] == ranks[j] && i < j)
  }

  function Place(ranks: seq<int>, i: nat, order: seq<nat>): (placed: seq<nat>)
    requires i < |ranks| && forall k :: 0 <= k < |order| ==> order[k] < i
    ensures forall k :: 0 <= k < |placed| ==> placed[k] <= i
  {
    if order == [] then [i]
    else if ranks[order[0]] < ranks[i] then [i] + order
    else [order[0]] + Place(ranks, i, order[1..])
  }

  /** The first n indices in stable order of descending priority. */
  function Order(ranks: seq<int>, n: nat): (order: seq<nat>)
    requires n <= |ranks|
    ensures forall k :: 0 <= k < |order| ==> order[k] < n
  {
    if n == 0 then []
    else Place(ranks, n - 1, Order(ranks, n - 1))
  }

  lemma {:induction false} PlaceMembers(ranks: seq<int>, i: nat, order: seq<nat>)
    requires i < |ranks| && forall k :: 0 <= k < |order| ==> order[k] < i
    ensures forall x :: x in Place(ranks, i, order) <==> x == i || x in order
    ensures |Place(ranks, i, order)| == |order| + 1
  {
    if order != [] && ranks[order[0]] >= ranks[i] {
      PlaceMembers(ranks, i, order[1..]);
      assert order == [order[0]] + order[1..];
    }
  }

  lemma {:induction false} PlaceSorts(ranks: seq<int>, i: nat, order: seq<nat>)
    requires i < |ranks| && forall k :: 0 <= k < |order| ==> order[k] < i
    requires forall a, b :: 0 <= a < b < |order| ==> Precedes(ranks, order[a], order[b])
    ensures var p := Place(ranks, i, order); forall a, b :: 0 <= a < b < |p| ==> Precedes(ranks, p[a], p[b])
  {
    PlaceMembers(ranks, i, order);
    if order != [] && ranks[order[0]] >= ranks[i] {
      PlaceSorts(ranks, i, order[1..]);
      PlaceMembers(ranks, i, order[1..]);
      var tail := Place(ranks, i, order[1..]);
      forall b | 0 <= b < |tail| ensures Precedes(ranks, order[0], tail[b]) {
        assert tail[b] == i || tail[b] in order[1..];
      }
    }
  }

  /** The order is a permutation of the indices and strictly sorted by `Precedes`, hence the only one. */
  lemma {:induction false} OrderIsStable(ranks: seq<int>, n: nat)
    requires n <= |ranks|
    ensures var o := Order(ranks, n);
            && |o| == n
            && (forall i :: 0 <= i < n ==> i in o)
            && (forall a, b :: 0 <= a < b < n ==> Precedes(ranks, o[a], o[b]))
  {
    if n > 0 {
      OrderIsStable(ranks, n - 1);
      var o := Order(ranks, n - 1);
      PlaceMembers(ranks, n - 1, o);
      PlaceSorts(ranks, n - 1, o);
    }
  }

  function SortRules(rules: seq<TargetRule>): (sorted: seq<TargetRule>) {
    var o := Order(Priorities(rules), |rules|);
    seq(|o|, k requires 0 <= k < |o| => rules[o[k]])
  }

  // --------------------------------------------------------------- evaluation

  /** The position of the first passing rule at or after `from`, or the length if there is none. */
  function FirstPassing(sorted: seq<TargetRule>, from: nat, subject: Subject, at: int, hash: Hash): (w: nat)
    requires from <= |sorted|
    ensures from <= w <= |sorted|
    ensures w < |sorted| ==> Passes(sorted[w], subject, at, hash)
    ensures forall k :: from <= k < w ==> !Passes(sorted[k], subject, at, hash)
    decreases |sorted| - from
  {
    if from == |sorted| || Passes(sorted[from], subject, at, hash) then from
    else FirstPassing(sorted, from + 1, subject, at, hash)
  }

  function ExplainAll(rules: seq<TargetRule>, subject: Subject, at: int, hash: Hash): seq<Explanation> {
    seq(|rules|, k requires 0 <= k < |rules| => Explain(rules[k], subject, at, hash))
  }

  lemma ExplainOneMore(rules: seq<TargetRule>, i: nat, subject: Subject, at: int, hash: Hash)
    requires i < |rules|
    ensures ExplainAll(rules[..i + 1], subject, at, hash)
         == ExplainAll(rules[..i], subject, at, hash) + [Explain(rules[i], subject, at, hash)]
  {
  }

  /** The rule is enabled and its window is open; only then is its experiment looked at. */
  predicate InForce(rule: TargetRule, at: int) {
    && rule.enabled
    && !(rule.startsAt.Some? && at < rule.startsAt.value)
    && !(rule.endsAt.Some? && at >= rule.endsAt.value)
  }

  /** The chain of checks on one rule, with the experiments selected so far. */
  method Judge(rule: TargetRule, experiments: set<string>, subject: Subject, at: int, hash: Hash)
    returns (x: Explanation)
    ensures x == if rule.experiment != "" && rule.experiment in experiments && InForce(rule, at)
                 then Explanation(rule.id, false, ExperimentTaken, 0, rule.priority)
                 else Explain(rule, subject, at, hash)
  {
    x := Explanation(rule.id, false, Matched, 0, rule.priority);
    if !rule.enabled {
      return x.(reason := Disabled);
    }
    if rule.startsAt.Some? && at < rule.startsAt.value {
      return x.(reason := WindowNotStarted);
    }
    if rule.endsAt.Some? && at >= rule.endsAt.value {
      return x.(reason := WindowEnded);
    }
    if rule.experiment != "" && rule.experiment in experiments {
      return x.(reason := ExperimentTaken);
    }
    if !Contains(subject.labels, rule.requiredLabels) {
      return x.(reason := LabelMismatch);
    }
    if !Contains(subject.attributes, rule.requiredAttributes) {
      return x.(reason := AttributeMismatch);
    }
    var identity := Lookup(subject.attributes, rule.hashAttribute);
    if identity == "" {
      identity := subject.deviceID;
    }
    if identity == "" {
      identity := subject.tenantID;
    }
    var bucket := hash(rule.id, identity);
    x := x.(bucket := bucket);
    if bucket >= rule.percentage {
      return x.(reason := OutsideBucket(bucket, rule.percentage));
    }
    return x.(matched := true);
  }

  /** The first passing rule wins and exactly the rules up to it are explained. */
  ghost predicate Outcome(rules: seq<TargetRule>, subject: Subject, at: int, hash: Hash, result: Evaluation) {
    var sorted := SortRules(rules);
    var w := FirstPassing(sorted, 0, subject, at, hash);
    && (result.matched <==> w < |sorted|)
    && result.ruleID == (if w < |sorted| then sorted[w].id else "")
    && result.explanations == ExplainAll(if w < |sorted| then sorted[..w + 1] else sorted, subject, at, hash)
  }

  /** Picks the first passing rule, explains exactly the rules up to it, and never excludes an experiment. */
  method Evaluate(rules: seq<TargetRule>, subject: Subject, at: int, hash: Hash) returns (result: Evaluation)
    ensures Outcome(rules, subject, at, hash, result)
    ensures result.matched ==>
              exists i :: 0 <= i < |rules| && rules[i].id == result.ruleID && Qualifies(rules[i], subject, at, hash)
    ensures !result.matched ==> forall i :: 0 <= i < |rules| ==> !Qualifies(rules[i], subject, at, hash)
    ensures forall k :: 0 <= k < |result.explanations| ==> result.explanations[k].reason != ExperimentTaken
  {
    result := Evaluation(false, "", []);
    var experiments: set<string> := {};
    var sorted := SortRules(rules);
    ghost var w := FirstPassing(sorted, 0, subject, at, hash);
    NeverExcluded(sorted, subject, at, hash);
    MatchIffQualified(rules, subject, at, hash);
    for i := 0 to |sorted|
      invariant i <= w && experiments == {}
      invariant result == Evaluation(false, "", ExplainAll(sorted[..i], subject, at, hash))
    {
      var rule := sorted[i];
      var x := Judge(rule, experiments, subject, at, hash);
      assert x == Explain(rule, subject, at, hash);
      ExplainOneMore(sorted, i, subject, at, hash);
      if !x.matched {
        result := result.(explanations := result.explanations + [x]);
        continue;
      }
      result := Evaluation(true, rule.id, result.explanations + [x]);
      if rule.experiment != "" {
        experiments := experiments + {rule.experiment};
      }
      assert w == i;
      NeverExcluded(sorted[..i + 1], subject, at, hash);
      return;
    }
    assert sorted[..|sorted|] == sorted;
  }

  /** Some rule wins exactly when some rule qualifies, and then the winner does. */
  lemma MatchIffQualified(rules: seq<TargetRule>, subject: Subject, at: int, hash: Hash)
    ensures var sorted := SortRules(rules);
            var w := FirstPassing(sorted, 0, subject, at, hash);
            && (w < |sorted| ==>
                  exists i :: 0 <= i < |rules| && rules[i].id == sorted[w].id && Qualifies(rules[i], subject, at, hash))
            && (w == |sorted| ==> forall i :: 0 <= i < |rules| ==> !Qualifies(rules[i], subject, at, hash))
  {
    var o, sorted := Order(Priorities(rules), |rules|), SortRules(rules);
    var w := FirstPassing(sorted, 0, subject, at, hash);
    if w < |sorted| {
      PassesIffQualifies(rules[o[w]], subject, at, hash);
    } else {
      forall i: nat | i < |rules| ensures !Qualifies(rules[i], subject, at, hash) {
        var p := Position(rules, i);
        PassesIffQualifies(rules[i], subject, at, hash);
      }
    }
  }

  /** The sorted rules are the given ones, by descending priority with ties in list order. */
  ghost predicate StablySorted(rules: seq<TargetRule>, sorted: seq<TargetRule>) {
    exists o: seq<nat> :: SortedBy(rules, sorted, o)
  }

  ghost predicate SortedBy(rules: seq<TargetRule>, sorted: seq<TargetRule>, o: seq<nat>) {
    && |sorted| == |o| == |rules|
    && (forall k :: 0 <= k < |o| ==> o[k] < |rules| && sorted[k] == rules[o[k]])
    && (forall a, b :: 0 <= a < b < |o| ==>
                         || rules[o[a]].priority > rules[o[b]].priority
                         || (rules[o[a]].priority == rules[o[b]].priority && o[a] < o[b]))
    && (forall i :: 0 <= i < |rules| ==> i in o)
  }

  lemma SortRulesIsStable(rules: seq<TargetRule>)
    ensures StablySorted(rules, SortRules(rules))
  {
    OrderIsStable(Priorities(rules), |rules|);
    var o := Order(Priorities(rules), |rules|);
    forall a, b | 0 <= a < b < |o|
      ensures rules[o[a]].priority > rules[o[b]].priority
              || (rules[o[a]].priority == rules[o[b]].priority && o[a] < o[b])
    {
      assert Precedes(Priorities(rules), o[a], o[b]);
    }
    assert SortedBy(rules, SortRules(rules), o);
  }

  /** The explanation of a rule before any experiment was selected never blames an experiment. */
  lemma NeverExcluded(rules: seq<TargetRule>, subject: Subject, at: int, hash: Hash)
    ensures var all := ExplainAll(rules, subject, at, hash);
            forall k :: 0 <= k < |all| ==> all[k].reason != ExperimentTaken
  {
  }

  /** The index, in the caller's list, of the rule that wins. */
  function Winner(rules: seq<TargetRule>, subject: Subject, at: int, hash: Hash): Option<nat> {
    var o := Order(Priorities(rules), |rules|);
    var w := FirstPassing(SortRules(rules), 0, subject, at, hash);
    if w < |o| then Some(o[w]) else None
  }

  lemma {:induction false} PositionOf(o: seq<nat>, x: nat) returns (p: nat)
    requires x in o
    ensures p < |o| && o[p] == x
  {
    if o[0] == x {
      p := 0;
    } else {
      p := PositionOf(o[1..], x);
      p := p + 1;
    }
  }

  /** The winner passes, and every rule that precedes it does not; without a winner none passes. */
  lemma WinnerIsFirstPassing(rules: seq<TargetRule>, subject: Subject, at: int, hash: Hash, i: nat)
    requires i < |rules|
    ensures Winner(rules, subject, at, hash) == Some(i) <==>
            && Passes(rules[i], subject, at, hash)
            && (forall j :: 0 <= j < |rules| && Precedes(Priorities(rules), j, i) ==>
                              !Passes(rules[j], subject, at, hash))
    ensures Winner(rules, subject, at, hash).None? ==> !Passes(rules[i], subject, at, hash)
  {
    var o, sorted := Order(Priorities(rules), |rules|), SortRules(rules);
    var w := FirstPassing(sorted, 0, subject, at, hash);
    var p := Position(rules, i);
    forall j | 0 <= j < |rules| && Precedes(Priorities(rules), j, i) && w >= p
      ensures !Passes(rules[j], subject, at, hash)
    {
      var q := Position(rules, j);
      PositionsFollowPrecedence(rules, q, p);
    }
    if w < p {
      PositionsFollowPrecedence(rules, w, p);
      assert Precedes(Priorities(rules), o[w], i) && Passes(rules[o[w]], subject, at, hash);
    }
    if w < |o| && o[w] == i {
      PositionsFollowPrecedence(rules, w, p);
      PositionsFollowPrecedence(rules, p, w);
    }
  }

  lemma Position(rules: seq<TargetRule>, i: nat) returns (p: nat)
    requires i < |rules|
    ensures var o := Order(Priorities(rules), |rules|);
            p < |o| == |rules| && o[p] == i && SortRules(rules)[p] == rules[i]
  {
    OrderIsStable(Priorities(rules), |rules|);
    p := PositionOf(Order(Priorities(rules), |rules|), i);
  }

  lemma PositionsFollowPrecedence(rules: seq<TargetRule>, q: nat, p: nat)
    requires q < |rules| && p < |rules|
    ensures var o := Order(Priorities(rules), |rules|);
            |o| == |rules| && (Precedes(Priorities(rules), o[q], o[p]) <==> q < p)
  {
    OrderIsStable(Priorities(rules), |rules|);
  }

  lemma PassingMoreWinsNoLater(s: seq<TargetRule>, t: seq<TargetRule>, subject: Subject, at: int, hash: Hash)
    requires |s| == |t|
    requires forall k :: 0 <= k < |s| && Passes(s[k], subject, at, hash) ==> Passes(t[k], subject, at, hash)
    ensures var w, v := FirstPassing(s, 0, subject, at, hash), FirstPassing(t, 0, subject, at, hash);
            v <= w && (v < w ==> s[v] != t[v])
  {
  }

  lemma RaisedRulePasses(rule: TargetRule, percentage: int, subject: Subject, at: int, hash: Hash)
    requires percentage >= rule.percentage && Passes(rule, subject, at, hash)
    ensures Passes(rule.(percentage := percentage), subject, at, hash)
  {
    var raised := rule.(percentage := percentage);
    assert Identity(raised, subject) == Identity(rule, subject);
  }

  /** Raising one rule's percentage keeps every match and moves the win at most to that rule. */
  lemma RaisingAPercentageIsMonotone(
    rules: seq<TargetRule>, i: nat, percentage: int, subject: Subject, at: int, hash: Hash)
    requires i < |rules| && percentage >= rules[i].percentage
    ensures var raised := rules[i := rules[i].(percentage := percentage)];
            var before := Winner(rules, subject, at, hash);
            var after := Winner(raised, subject, at, hash);
            (after == before || after == Some(i)) && (before.Some? ==> after.Some?)
  {
    var raised := rules[i := rules[i].(percentage := percentage)];
    assert Priorities(raised) == Priorities(rules);
    var s, t := SortRules(rules), SortRules(raised);
    forall k | 0 <= k < |s| && Passes(s[k], subject, at, hash) ensures Passes(t[k], subject, at, hash) {
      RaisedRulePasses(s[k], if s[k] == t[k] then s[k].percentage else percentage, subject, at, hash);
    }
    PassingMoreWinsNoLater(s, t, subject, at, hash);
  }
}
