/** The in-memory release store with its idempotency index (internal/releasedomain/repository.go). */
module ReleaseRepository {
  import opened Common
  import opened ReleaseDomain
  import Sorting

  datatype Repo = Repo(releases: map<string, Release>, idempotency: map<string, string>)

  /** The state after a write and the error it returned, if any. */
  datatype RepoWrite = RepoWrite(repo: Repo, error: Option<Error>)

  /** Insertion: refused for a used idempotency key or a used id. */
  function CreateRelease(m: Repo, r: Release): RepoWrite {
    if r.idempotencyKey != "" && Lookup(m.idempotency, r.idempotencyKey) != "" then RepoWrite(m, Some(Conflict))
    else if r.id in m.releases then RepoWrite(m, Some(Conflict))
    else
      RepoWrite(
        Repo(m.releases[r.id := r],
             if r.idempotencyKey != "" then m.idempotency[r.idempotencyKey := r.id] else m.idempotency),
        None)
  }

  /** Neither the id nor a non-empty idempotency key has been used. */
  predicate Unused(m: Repo, id: string, key: string) {
    id !in m.releases && (key == "" || Lookup(m.idempotency, key) == "")
  }

  /** The index with the key, if it is not empty, pointing at the id; other entries stay. */
  function WithKey(idempotency: map<string, string>, key: string, id: string): map<string, string> {
    if key == "" then idempotency else idempotency[key := id]
  }

  /** Compare-and-set: the stored revision must be the expected one. */
  function UpdateRelease(m: Repo, r: Release, expected: int): RepoWrite {
    if r.id !in m.releases then RepoWrite(m, Some(NotFound))
    else if m.releases[r.id].revision != expected then RepoWrite(m, Some(Precondition))
    else RepoWrite(m.(releases := m.releases[r.id := r]), None)
  }

  /** Every record is stored under its own id. */
  ghost predicate Keyed(releases: map<string, Release>) {
    forall id :: id in releases ==> releases[id].id == id
  }

  /** A complete arrangement of the store, oldest first; the order of equal ages is open. */
  ghost predicate OldestFirst(releases: map<string, Release>, all: seq<Release>) {
    && |all| == |releases|
    && (forall i :: 0 <= i < |all| ==> all[i].id in releases && releases[all[i].id] == all[i])
    && (forall i, j :: 0 <= i < j < |all| ==> all[i].id != all[j].id)
    && (forall i, j :: 0 <= i < j < |all| ==> all[i].createdAt <= all[j].createdAt)
  }

  /** One page of an arrangement; pages count from 1. */
  function Page(all: seq<Release>, page: int, size: int): seq<Release>
    requires page >= 1 && size >= 0
  {
    var from := (page - 1) * size;
    if from >= |all| then []
    else if from + size > |all| then all[from..]
    else all[from..from + size]
  }

  function PagesUpTo(all: seq<Release>, k: nat, size: int): seq<Release>
    requires size >= 0
  {
    if k == 0 then [] else PagesUpTo(all, k - 1, size) + Page(all, k, size)
  }

  /** The pages of a listing, one after the other, are the listing: nothing is lost, doubled or reordered. */
  lemma {:induction false} PagesTile(all: seq<Release>, k: nat, size: int)
    requires size >= 0
    ensures PagesUpTo(all, k, size) == all[..if k * size <= |all| then k * size else |all|]
  {
    if k > 0 {
      PagesTile(all, k - 1, size);
      assert k * size == (k - 1) * size + size;
      assert (k - 1) * size >= 0;
    }
  }

  function Ids(all: seq<Release>): set<string> {
    set i | 0 <= i < |all| :: all[i].id
  }

  lemma {:induction false} IdsAreDistinct(all: seq<Release>)
    requires forall i, j :: 0 <= i < j < |all| ==> all[i].id != all[j].id
    ensures |Ids(all)| == |all|
  {
    if all != [] {
      var front := all[..|all| - 1];
      IdsAreDistinct(front);
      assert forall i :: 0 <= i < |front| ==> front[i] == all[i];
      assert Ids(all) == Ids(front) + {all[|all| - 1].id};
      assert all[|all| - 1].id !in Ids(front);
    }
  }

  /** An arrangement mentions every stored release. */
  lemma ArrangementIsComplete(releases: map<string, Release>, all: seq<Release>)
    requires OldestFirst(releases, all)
    ensures Ids(all) == releases.Keys
  {
    IdsAreDistinct(all);
    assert Ids(all) <= releases.Keys;
    SubsetOfSameSize(Ids(all), releases.Keys);
  }

  lemma SubsetOfSameSize(a: set<string>, b: set<string>)
    requires a <= b && |a| == |b|
    ensures a == b
  {
    assert |b - a| == 0;
  }

  function AgeOf(releases: map<string, Release>): string -> int {
    id => if id in releases then releases[id].createdAt else 0
  }

  lemma OldestExists(releases: map<string, Release>, ids: set<string>)
    requires ids != {} && ids <= releases.Keys
    ensures exists id :: id in ids && forall x :: x in ids ==> releases[id].createdAt <= releases[x].createdAt
  {
    Sorting.LeastExists(ids, AgeOf(releases));
    var id :| id in ids && forall x :: x in ids ==> AgeOf(releases)(id) <= AgeOf(releases)(x);
    forall x | x in ids ensures releases[id].createdAt <= releases[x].createdAt {
      assert AgeOf(releases)(id) <= AgeOf(releases)(x);
    }
  }

  /** An arrangement under construction: everything but `todo` is placed, and nothing left is older. */
  ghost predicate Arranging(releases: map<string, Release>, todo: set<string>, placed: seq<Release>) {
    && todo <= releases.Keys && |placed| + |todo| == |releases|
    && (forall i :: 0 <= i < |placed| ==>
                      placed[i].id in releases && releases[placed[i].id] == placed[i] && placed[i].id !in todo)
    && (forall i, j :: 0 <= i < j < |placed| ==> placed[i].id != placed[j].id)
    && (forall i, j :: 0 <= i < j < |placed| ==> placed[i].createdAt <= placed[j].createdAt)
    && (forall i, x :: 0 <= i < |placed| && x in todo ==> placed[i].createdAt <= releases[x].createdAt)
  }

  lemma PlaceNext(releases: map<string, Release>, todo: set<string>, placed: seq<Release>, id: string)
    requires Keyed(releases) && Arranging(releases, todo, placed)
    requires id in todo && forall x :: x in todo ==> releases[id].createdAt <= releases[x].createdAt
    ensures Arranging(releases, todo - {id}, placed + [releases[id]])
  {
  }

  /** An arrangement can be continued up to any set that holds nothing older than what it leaves out. */
  lemma {:induction false} ArrangeUpTo(
    releases: map<string, Release>, todo: set<string>, placed: seq<Release>, rest: set<string>)
    returns (more: seq<Release>)
    requires Keyed(releases) && Arranging(releases, todo, placed) && rest <= todo
    requires forall x, y :: x in todo - rest && y in rest ==> releases[x].createdAt <= releases[y].createdAt
    ensures Arranging(releases, rest, more) && placed <= more
    decreases todo
  {
    if todo == rest {
      more := placed;
    } else {
      assert todo - rest != {};
      OldestExists(releases, todo - rest);
      var id :| id in todo - rest && forall x :: x in todo - rest ==> releases[id].createdAt <= releases[x].createdAt;
      forall x | x in todo ensures releases[id].createdAt <= releases[x].createdAt {
        assert x in rest || x in todo - rest;
      }
      PlaceNext(releases, todo, placed, id);
      more := ArrangeUpTo(releases, todo - {id}, placed + [releases[id]], rest);
    }
  }

  /** Some complete arrangement always exists. */
  lemma ArrangementExists(releases: map<string, Release>) returns (all: seq<Release>)
    requires Keyed(releases)
    ensures OldestFirst(releases, all)
  {
    all := ArrangeUpTo(releases, releases.Keys, [], {});
  }

  /** A release can be listed right after any set that holds what is older and nothing that is younger. */
  lemma ArrangementAfter(releases: map<string, Release>, id: string, first: set<string>) returns (all: seq<Release>)
    requires Keyed(releases) && id in releases && first <= releases.Keys && id !in first
    requires forall x :: x in first ==> releases[x].createdAt <= releases[id].createdAt
    requires forall x :: x in releases && x !in first ==> releases[id].createdAt <= releases[x].createdAt
    ensures OldestFirst(releases, all) && |first| < |all| && all[|first|].id == id
  {
    var rest := releases.Keys - first;
    assert releases.Keys - rest == first && |releases.Keys| == |first| + |rest|;
    var placed := ArrangeUpTo(releases, releases.Keys, [], rest);
    PlaceNext(releases, rest, placed, id);
    all := ArrangeUpTo(releases, rest - {id}, placed + [releases[id]], {});
    assert all[|first|] == (placed + [releases[id]])[|first|];
  }

  class MemoryRepository {
    var releases: map<string, Release>
    var idempotency: map<string, string>

    ghost predicate Valid()
      reads this
    {
      Keyed(releases)
    }

    ghost function State(): Repo
      reads this
    {
      Repo(releases, idempotency)
    }

    constructor ()
      ensures Valid() && State() == Repo(map[], map[])
    {
      releases, idempotency := map[], map[];
    }

    method Create(r: Release) returns (err: Option<Error>)
      requires Valid()
      modifies this
      ensures Valid() && RepoWrite(State(), err) == CreateRelease(old(State()), r)
    {
      if r.idempotencyKey != "" {
        var id := Lookup(idempotency, r.idempotencyKey);
        if id != "" {
          return Some(Conflict);
        }
      }
      if r.id in releases {
        return Some(Conflict);
      }
      releases := releases[r.id := r];
      if r.idempotencyKey != "" {
        idempotency := idempotency[r.idempotencyKey := r.id];
      }
      return None;
    }

    method Get(id: string) returns (r: Result<Release>)
      ensures r == if id in releases then Ok(releases[id]) else Err(NotFound)
    {
      if id !in releases {
        return Err(NotFound);
      }
      return Ok(releases[id]);
    }

    method Update(r: Release, expected: int) returns (err: Option<Error>)
      requires Valid()
      modifies this
      ensures Valid() && RepoWrite(State(), err) == UpdateRelease(old(State()), r, expected)
    {
      if r.id !in releases {
        return Some(NotFound);
      }
      if releases[r.id].revision != expected {
        return Some(Precondition);
      }
      releases := releases[r.id := r];
      return None;
    }

    /** Collects, sorts by age with ties in any order, and pages. */
    method List(page: int, size: int) returns (items: seq<Release>, total: int, ghost all: seq<Release>)
      requires Valid() && page >= 1 && size >= 0
      ensures OldestFirst(releases, all) && total == |releases| && items == Page(all, page, size)
    {
      var sorted: seq<Release> := [];
      var todo := releases.Keys;
      while todo != {}
        invariant Arranging(releases, todo, sorted)
        decreases |todo|
      {
        OldestExists(releases, todo);
        var id :| id in todo && forall x :: x in todo ==> releases[id].createdAt <= releases[x].createdAt;
        PlaceNext(releases, todo, sorted, id);
        sorted := sorted + [releases[id]];
        todo := todo - {id};
      }
      total := |sorted|;
      all := sorted;
      var from := (page - 1) * size;
      assert from >= 0;
      if from >= total {
        return [], total, all;
      }
      var to := from + size;
      if to > total {
        to := total;
      }
      return sorted[from..to], total, all;
    }
  }
}
