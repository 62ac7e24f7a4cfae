/** Configurations, their versions and target rules (internal/configdomain/model.go). */
module ConfigDomain {
  import opened Common
  import Text

  datatype VersionState = Draft | Reviewing | Scheduled | RollingOut | Paused | Published | RolledBack | Expired

  datatype Scope = Scope(tenantID: string, application: string, environment: string, namespace: string) {
    function Key(): string {
      tenantID + "/" + (application + "/" + (environment + "/" + namespace))
    }

    predicate Valid() {
      ValidName(tenantID) && ValidName(application) && ValidName(environment) && ValidName(namespace)
    }
  }

  datatype Config = Config(
    id: string, scope: Scope, key: string, description: string,
    createdAt: int, updatedAt: int, version: int, archived: bool)
  {
    predicate Valid() {
      scope.Valid() && ValidName(key) && |description| <= 1024
    }

    /** The text under which the store indexes the configuration. */
    function IndexKey(): string {
      scope.Key() + "/" + key
    }
  }

  datatype ConfigValue = ConfigValue(kind: string, raw: string, secretRef: string)

  datatype Dependency = Dependency(key: string, required: bool)

  datatype TargetRule = TargetRule(
    id: string, priority: int, percentage: int, hashAttribute: string,
    requiredLabels: map<string, string>, requiredAttributes: map<string, string>,
    startsAt: Option<int>, endsAt: Option<int>, experiment: string, enabled: bool)

  predicate ValidRule(r: TargetRule) {
    && r.id != "" && 0 <= r.percentage <= 100
    && (r.percentage > 0 ==> ValidName(r.hashAttribute))
    && !(r.startsAt.Some? && r.endsAt.Some? && r.startsAt.value >= r.endsAt.value)
  }

  /** What makes a rule unacceptable, fault by fault. */
  ghost predicate BadRule(r: TargetRule) {
    || r.id == ""
    || r.percentage < 0 || r.percentage > 100
    || (r.percentage != 0 && !ValidName(r.hashAttribute))
    || (exists s, e :: r.startsAt == Some(s) && r.endsAt == Some(e) && e <= s)
  }

  lemma ValidIffNotBad(r: TargetRule)
    ensures ValidRule(r) <==> !BadRule(r)
  {
  }

  datatype ConfigVersion = ConfigVersion(
    configID: string, number: int, state: VersionState, value: ConfigValue,
    rules: seq<TargetRule>, dependencies: seq<Dependency>, expiresAt: Option<int>,
    createdBy: string, createdAt: int, updatedAt: int, revision: int, rollbackOf: int)
  {
    predicate CanTransition(to: VersionState) {
      match state
      case Draft => to in {Reviewing, Expired}
      case Reviewing => to in {Draft, Scheduled, Expired}
      case Scheduled => to in {RollingOut, Paused, Expired}
      case RollingOut => to in {Paused, Published, RolledBack}
      case Paused => to in {RollingOut, RolledBack, Expired}
      case Published => to in {RolledBack, Expired}
      case RolledBack => false
      case Expired => false
    }

    function Transition(to: VersionState, now: int): Result<ConfigVersion> {
      if !CanTransition(to) then Err(BadTransition)
      else Ok(this.(state := to, updatedAt := now, revision := revision + 1))
    }

    function Ref(): VersionRef {
      VersionRef(configID, number)
    }
  }

  /** Where a version may be when a caller asks for the given state, target by target. */
  predicate VersionAdmits(from: VersionState, to: VersionState) {
    match to
    case Draft => from == Reviewing
    case Reviewing => from == Draft
    case Scheduled => from == Reviewing
    case RollingOut => from == Scheduled || from == Paused
    case Paused => from == Scheduled || from == RollingOut
    case Published => from == RollingOut
    case RolledBack => from == RollingOut || from == Paused || from == Published
    case Expired => from == Draft || from == Reviewing || from == Scheduled || from == Paused || from == Published
  }

  /** The state machine by source and the one by target are the same. */
  lemma VersionCanIffAdmitted(v: ConfigVersion, to: VersionState)
    ensures v.CanTransition(to) <==> VersionAdmits(v.state, to)
  {
  }

  /** Everything but the serving state: what "immutable version" means. */
  ghost predicate SameContent(a: ConfigVersion, b: ConfigVersion) {
    b == a.(state := b.state, revision := b.revision, updatedAt := b.updatedAt)
  }

  predicate NameHead(c: char) {
    'a' <= c <= 'z'
  }

  predicate NameTail(c: char) {
    'a' <= c <= 'z' || '0' <= c <= '9' || c == '_' || c == '-'
  }

  /** A lowercase letter followed by 1 to 63 letters, digits, underscores or hyphens. */
  predicate ValidName(s: string) {
    2 <= |s| <= 64 && NameHead(s[0]) && forall i :: 1 <= i < |s| ==> NameTail(s[i])
  }

  /** Where the alphabet of names begins and ends. */
  lemma NameAlphabet()
    ensures NameHead('a') && NameHead('z') && NameTail('a') && NameTail('z') && NameTail('0') && NameTail('9')
    ensures NameTail('_') && NameTail('-') && !NameHead('0') && !NameHead('9') && !NameHead('_') && !NameHead('-')
    ensures !NameTail('`') && !NameTail('{') && !NameTail('/') && !NameTail(':') && !NameTail('A') && !NameTail('Z')
    ensures !NameTail('.') && !NameTail(' ') && !NameHead('`') && !NameHead('{') && !NameHead('A')
  {
  }

  /** A name may be 2 to 64 characters long and no other length. */
  lemma NameLengths(s: string)
    requires ValidName(s) && |s| == 64
    ensures ValidName(s[..2]) && !ValidName(s[..1]) && !ValidName(s + "a")
  {
  }

  /** Descriptions may be up to 1024 characters long. */
  lemma DescriptionLimit(c: Config, d: string)
    requires c.Valid()
    ensures c.(description := d).Valid() <==> |d| <= 1024
  {
  }

  lemma NamesHaveNoSeparators(s: string)
    requires ValidName(s)
    ensures '/' !in s && ':' !in s && ';' !in s && '@' !in s
  {
    forall i | 0 <= i < |s| ensures NameTail(s[i]) {
    }
  }

  /** Five names of 2 to 64 characters and four separators. */
  lemma IndexKeyLength(c: Config)
    requires c.Valid()
    ensures 14 <= |c.IndexKey()| <= 324
  {
  }

  /** For valid configurations the index text identifies scope and key. */
  lemma IndexKeyIsInjective(a: Config, b: Config)
    requires a.Valid() && b.Valid()
    ensures a.IndexKey() == b.IndexKey() <==> a.scope == b.scope && a.key == b.key
  {
    if a.IndexKey() == b.IndexKey() {
      var s, t := a.scope, b.scope;
      NamesHaveNoSeparators(s.tenantID);
      NamesHaveNoSeparators(t.tenantID);
      NamesHaveNoSeparators(s.application);
      NamesHaveNoSeparators(t.application);
      NamesHaveNoSeparators(s.environment);
      NamesHaveNoSeparators(t.environment);
      NamesHaveNoSeparators(s.namespace);
      NamesHaveNoSeparators(t.namespace);
      var x3, y3 := s.namespace + "/" + a.key, t.namespace + "/" + b.key;
      var x2, y2 := s.environment + "/" + x3, t.environment + "/" + y3;
      var x1, y1 := s.application + "/" + x2, t.application + "/" + y2;
      assert a.IndexKey() == s.tenantID + "/" + x1;
      assert b.IndexKey() == t.tenantID + "/" + y1;
      Text.SplitIsUnique(s.tenantID, t.tenantID, x1, y1, '/');
      Text.SplitIsUnique(s.application, t.application, x2, y2, '/');
      Text.SplitIsUnique(s.environment, t.environment, x3, y3, '/');
      Text.SplitIsUnique(s.namespace, t.namespace, a.key, b.key, '/');
    }
  }
}
