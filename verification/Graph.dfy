/** Dependency graphs: cycle detection and transitive closure (internal/configdomain/graph.go). */
module Graph {
  import opened Common
  import opened ConfigDomain
  import Sorting
  import Text

  type Edges<N> = map<N, seq<N>>

  function Successors<N(==)>(edges: Edges<N>, k: N): seq<N> {
    if k in edges then edges[k] else []
  }

  ghost predicate EdgeAt<N(!new)>(edges: Edges<N>, p: seq<N>, i: int) {
    0 < i < |p| ==> p[i] in Successors(edges, p[i - 1])
  }

  /** Every consecutive pair is an edge. */
  ghost predicate IsPath<N(!new)>(edges: Edges<N>, p: seq<N>) {
    p != [] && forall i :: 0 < i < |p| ==> EdgeAt(edges, p, i)
  }

  ghost predicate IsCycle<N(!new)>(edges: Edges<N>, p: seq<N>) {
    |p| >= 2 && IsPath(edges, p) && p[0] == p[|p| - 1]
  }

  ghost predicate Cyclic<N(!new)>(edges: Edges<N>) {
    exists p :: IsCycle(edges, p)
  }

  /** Reachable by one or more edges. */
  ghost predicate Reaches<N(!new)>(edges: Edges<N>, from: N, to: N) {
    exists p :: |p| >= 2 && IsPath(edges, p) && p[0] == from && p[|p| - 1] == to
  }

  /** Every node of the graph: the keys and the targets of edges. */
  ghost function Nodes<N(!new)>(edges: Edges<N>): set<N> {
    edges.Keys + set k, i | k in edges && 0 <= i < |edges[k]| :: edges[k][i]
  }

  /** The set holds every node of the graph. */
  ghost predicate Spans<N(!new)>(nodes: set<N>, edges: Edges<N>) {
    edges.Keys <= nodes && forall k, n :: k in edges && n in edges[k] ==> n in nodes
  }

  lemma NodesSpan<N(!new)>(edges: Edges<N>)
    ensures Spans(Nodes(edges), edges)
  {
  }

  /** No edge leaves the set. */
  ghost predicate Closed<N(!new)>(edges: Edges<N>, s: set<N>) {
    forall k, n :: k in s && n in Successors(edges, k) ==> n in s
  }

  lemma {:induction false} PathsStayInside<N(!new)>(edges: Edges<N>, s: set<N>, p: seq<N>, i: nat)
    requires Closed(edges, s) && IsPath(edges, p) && p[0] in s && i < |p|
    ensures p[i] in s
  {
    if i > 0 {
      PathsStayInside(edges, s, p, i - 1);
      assert EdgeAt(edges, p, i);
    }
  }

  lemma PathExtends<N(!new)>(edges: Edges<N>, p: seq<N>, n: N)
    requires IsPath(edges, p) && n in Successors(edges, p[|p| - 1])
    ensures IsPath(edges, p + [n])
  {
    var q := p + [n];
    forall i | 0 < i < |q| ensures EdgeAt(edges, q, i) {
      if i < |p| { assert EdgeAt(edges, p, i); }
    }
  }

  lemma ReachesExtends<N(!new)>(edges: Edges<N>, from: N, mid: N, to: N)
    requires (mid == from || Reaches(edges, from, mid)) && to in Successors(edges, mid)
    ensures Reaches(edges, from, to)
  {
    if mid == from {
      PathExtends(edges, [from], to);
      assert IsPath(edges, [from] + [to]);
    } else {
      var p :| |p| >= 2 && IsPath(edges, p) && p[0] == from && p[|p| - 1] == mid;
      PathExtends(edges, p, to);
      assert (p + [to])[0] == from;
    }
  }

  /** The finished colour: closed under edges, and no cycle starts inside. */
  ghost predicate Settled<N(!new)>(edges: Edges<N>, black: set<N>) {
    && Closed(edges, black)
    && (forall p :: IsCycle(edges, p) ==> p[0] !in black)
  }

  /** A node whose successors are all settled can be settled. */
  lemma SettleOne<N(!new)>(edges: Edges<N>, black: set<N>, k: N)
    requires Settled(edges, black) && k !in black
    requires forall n :: n in Successors(edges, k) ==> n in black
    ensures Settled(edges, black + {k})
  {
    forall p | IsCycle(edges, p) ensures p[0] !in black + {k} {
      if p[0] == k {
        assert EdgeAt(edges, p, 1);
        var tail := p[1..];
        assert IsPath(edges, tail) by {
          forall i | 0 < i < |tail| ensures EdgeAt(edges, tail, i) {
            assert EdgeAt(edges, p, i + 1);
          }
        }
        PathsStayInside(edges, black, tail, |tail| - 1);
      }
    }
  }

  /** An edge back into the current path closes a cycle. */
  lemma BackEdgeIsCycle<N(!new)>(edges: Edges<N>, path: seq<N>, n: N)
    requires IsPath(edges, path) && n in path && n in Successors(edges, path[|path| - 1])
    ensures Cyclic(edges)
  {
    var i :| 0 <= i < |path| && path[i] == n;
    var loop := path[i..];
    assert IsPath(edges, loop) by {
      forall j | 0 < j < |loop| ensures EdgeAt(edges, loop, j) {
        assert EdgeAt(edges, path, i + j);
      }
    }
    PathExtends(edges, loop, n);
    assert IsCycle(edges, loop + [n]);
  }

  type Colours<N> = map<N, int>

  ghost function Black<N(!new)>(state: Colours<N>): set<N> {
    set k | k in state && state[k] == 2
  }

  ghost function Uncoloured<N(!new)>(nodes: set<N>, state: Colours<N>): nat {
    |nodes - state.Keys|
  }

  /** Grey nodes (1) are the current path, black nodes (2) are settled, nothing else is coloured. */
  ghost predicate Coloured<N(!new)>(edges: Edges<N>, state: Colours<N>, path: seq<N>) {
    && (forall k :: k in state ==> state[k] == 1 || state[k] == 2)
    && (forall k :: k in path <==> k in state && state[k] == 1)
    && (path != [] ==> IsPath(edges, path))
    && Settled(edges, Black(state))
  }

  /** Black nodes stay black and no colour is lost. */
  ghost predicate Darkens<N(!new)>(state: Colours<N>, later: Colours<N>) {
    forall k :: k in state ==> k in later && (state[k] == 2 ==> later[k] == 2)
  }

  ghost predicate AllBlack<N(!new)>(state: Colours<N>, nodes: seq<N>) {
    forall i :: 0 <= i < |nodes| ==> nodes[i] in state && state[nodes[i]] == 2
  }

  lemma BlackPersists<N(!new)>(state: Colours<N>, later: Colours<N>, nodes: seq<N>, n: N)
    requires AllBlack(state, nodes) && Darkens(state, later) && AllBlack(later, [n])
    ensures AllBlack(later, nodes + [n])
  {
    assert [n][0] in later;
  }

  lemma KeysPersist<N(!new)>(edges: Edges<N>, state: Colours<N>, later: Colours<N>, todo: set<N>, k: N)
    requires edges.Keys - todo <= Black(state) && Darkens(state, later) && AllBlack(later, [k])
    ensures edges.Keys - (todo - {k}) <= Black(later)
  {
    assert [k][0] in later;
    forall x | x in edges.Keys - (todo - {k}) ensures x in Black(later) {
      assert x != k ==> x in Black(state);
    }
  }

  lemma DarkensOn<N(!new)>(state: Colours<N>, grey: Colours<N>, later: Colours<N>, k: N)
    requires k !in state && grey == state[k := 1] && Darkens(grey, later)
    ensures Darkens(state, later[k := 2]) && AllBlack(later[k := 2], [k])
  {
  }

  lemma PaintGrey<N(!new)>(edges: Edges<N>, state: Colours<N>, path: seq<N>, k: N)
    requires Coloured(edges, state, path) && k !in state
    requires path != [] ==> k in Successors(edges, path[|path| - 1])
    ensures Coloured(edges, state[k := 1], path + [k])
  {
    if path != [] { PathExtends(edges, path, k); }
    assert Black(state[k := 1]) == Black(state);
  }

  lemma PaintBlack<N(!new)>(edges: Edges<N>, state: Colours<N>, path: seq<N>, k: N)
    requires Coloured(edges, state, path + [k]) && k !in path
    requires AllBlack(state, Successors(edges, k))
    ensures Coloured(edges, state[k := 2], path)
  {
    var inner := path + [k];
    assert k in inner;
    forall n | n in Successors(edges, k) ensures n in Black(state) {
    }
    SettleOne(edges, Black(state), k);
    assert Black(state[k := 2]) == Black(state) + {k};
    if path != [] {
      forall i | 0 < i < |path| ensures EdgeAt(edges, path, i) {
        assert EdgeAt(edges, inner, i);
      }
    }
    forall x ensures x in path <==> x in state[k := 2] && state[k := 2][x] == 1 {
      assert x in inner <==> x in path || x == k;
    }
  }

  lemma FewerUncoloured<N(!new)>(nodes: set<N>, state: Colours<N>, later: Colours<N>)
    requires Darkens(state, later)
    ensures Uncoloured(nodes, later) <= Uncoloured(nodes, state)
  {
    var rest, all := nodes - later.Keys, nodes - state.Keys;
    assert all == rest + (all - rest);
  }

  lemma PaintingUsesUp<N(!new)>(nodes: set<N>, state: Colours<N>, k: N)
    requires k in nodes && k !in state
    ensures Uncoloured(nodes, state[k := 1]) < Uncoloured(nodes, state)
  {
    assert nodes - state.Keys == nodes - state[k := 1].Keys + {k};
  }

  lemma CyclesStartAtKeys<N(!new)>(edges: Edges<N>, p: seq<N>)
    ensures IsCycle(edges, p) ==> p[0] in edges
  {
    assert IsCycle(edges, p) ==> EdgeAt(edges, p, 1);
  }

  lemma SettledKeysMeanAcyclic<N(!new)>(edges: Edges<N>, black: set<N>)
    requires Settled(edges, black) && edges.Keys <= black
    ensures !Cyclic(edges)
  {
    forall p ensures !IsCycle(edges, p) {
      CyclesStartAtKeys(edges, p);
    }
  }

  /** The three-colour depth-first search with its colour table. */
  class CycleSearch<N(==, !new)> {
    const edges: Edges<N>
    ghost const nodes: set<N>
    var state: Colours<N>

    constructor (edges: Edges<N>)
      ensures this.edges == edges && state == map[] && Spans(nodes, edges)
    {
      this.edges, state := edges, map[];
      nodes := Nodes(edges);
      NodesSpan(edges);
    }

    method Visit(k: N, ghost path: seq<N>) returns (found: bool)
      requires Spans(nodes, edges) && Coloured(edges, state, path) && k in nodes
      requires path != [] ==> k in Successors(edges, path[|path| - 1])
      modifies this
      ensures found ==> Cyclic(edges)
      ensures !found ==> Coloured(edges, state, path) && Darkens(old(state), state) && AllBlack(state, [k])
      decreases Uncoloured(nodes, state), 1
    {
      if k in state && state[k] == 1 {
        BackEdgeIsCycle(edges, path, k);
        return true;
      }
      if k in state && state[k] == 2 {
        return false;
      }
      found := Explore(k, path);
    }

    /** Paints an uncoloured node grey, visits its successors and paints it black. */
    method Explore(k: N, ghost path: seq<N>) returns (found: bool)
      requires Spans(nodes, edges) && Coloured(edges, state, path) && k in nodes && k !in state
      requires path != [] ==> k in Successors(edges, path[|path| - 1])
      modifies this
      ensures found ==> Cyclic(edges)
      ensures !found ==> Coloured(edges, state, path) && Darkens(old(state), state) && AllBlack(state, [k])
      decreases Uncoloured(nodes, state), 0
    {
      assert k !in path;
      PaintGrey(edges, state, path, k);
      PaintingUsesUp(nodes, state, k);
      state := state[k := 1];
      ghost var grey, inner := state, path + [k];
      assert inner[|inner| - 1] == k;
      found := VisitAll(Successors(edges, k), inner);
      if !found {
        PaintBlack(edges, state, path, k);
        DarkensOn(old(state), grey, state, k);
        state := state[k := 2];
      }
    }

    /** The loop over the successors of the node at the end of the path. */
    method VisitAll(next: seq<N>, ghost path: seq<N>) returns (found: bool)
      requires Spans(nodes, edges) && Coloured(edges, state, path) && path != []
      requires next == Successors(edges, path[|path| - 1])
      modifies this
      ensures found ==> Cyclic(edges)
      ensures !found ==> Coloured(edges, state, path) && Darkens(old(state), state) && AllBlack(state, next)
      decreases Uncoloured(nodes, state), 2
    {
      for i := 0 to |next|
        invariant Coloured(edges, state, path) && Darkens(old(state), state) && AllBlack(state, next[..i])
        invariant Uncoloured(nodes, state) <= Uncoloured(nodes, old(state))
      {
        ghost var before := state;
        found := Visit(next[i], path);
        if found {
          return true;
        }
        FewerUncoloured(nodes, before, state);
        BlackPersists(before, state, next[..i], next[i]);
        assert next[..i + 1] == next[..i] + [next[i]];
      }
      assert next[..|next|] == next;
      return false;
    }

    /** Visits every key, in any map order. */
    method Search() returns (found: bool)
      requires Spans(nodes, edges) && state == map[]
      modifies this
      ensures found <==> Cyclic(edges)
    {
      var todo := edges.Keys;
      assert Black(state) == {};
      while todo != {}
        invariant Coloured(edges, state, []) && todo <= edges.Keys
        invariant edges.Keys - todo <= Black(state)
        decreases |todo|
      {
        var k :| k in todo;
        ghost var before := state;
        var hit := Visit(k, []);
        if hit {
          return true;
        }
        KeysPersist(edges, before, state, todo, k);
        todo := todo - {k};
      }
      SettledKeysMeanAcyclic(edges, Black(state));
      return false;
    }
  }

  /** True exactly for graphs with a directed cycle. */
  method HasCycle<N(==, !new)>(edges: Edges<N>) returns (found: bool)
    ensures found <==> Cyclic(edges)
  {
    var search := new CycleSearch(edges);
    found := search.Search();
  }

  // ------------------------------------------------------ transitive closure

  function Self<N>(k: N): N { k }

  /** The depth-first closure with its `seen` set and result list. */
  class ClosureSearch<N(==, !new)> {
    const edges: Edges<N>
    ghost const nodes: set<N>
    var seen: set<N>
    var result: seq<N>

    constructor (edges: Edges<N>)
      ensures this.edges == edges && seen == {} && result == [] && Spans(nodes, edges)
    {
      this.edges, seen, result := edges, {}, [];
      nodes := Nodes(edges);
      NodesSpan(edges);
    }

    ghost predicate Valid(root: N)
      reads this
    {
      && Spans(nodes, edges) && seen <= nodes
      && (forall x :: x in result <==> x in seen)
      && (forall i, j :: 0 <= i < j < |result| ==> result[i] != result[j])
      && (forall x :: x in seen ==> Reaches(edges, root, x))
    }

    /** Adds what k reaches; every node added, and k, ends with all its successors seen. */
    method Visit(k: N, ghost root: N)
      requires Valid(root) && (k == root || Reaches(edges, root, k))
      modifies this
      ensures Valid(root) && old(seen) <= seen
      ensures Explored(edges, seen, k) && ExploredSince(edges, old(seen), seen)
      decreases Unseen(nodes, seen), 2
    {
      var next := Successors(edges, k);
      for i := 0 to |next|
        invariant Valid(root) && old(seen) <= seen && ExploredSince(edges, old(seen), seen)
        invariant Unseen(nodes, seen) <= Unseen(nodes, old(seen))
        invariant forall j :: 0 <= j < i ==> next[j] in seen
      {
        Meet(next[i], k, root, old(seen));
      }
    }

    /** The loop body: a node not seen yet is discovered. */
    method Meet(n: N, k: N, ghost root: N, ghost was: set<N>)
      requires Valid(root) && (k == root || Reaches(edges, root, k)) && n in Successors(edges, k)
      requires was <= seen && ExploredSince(edges, was, seen)
      modifies this
      ensures Valid(root) && old(seen) + {n} <= seen && ExploredSince(edges, was, seen)
      ensures Unseen(nodes, seen) <= Unseen(nodes, old(seen))
      decreases Unseen(nodes, seen), 1
    {
      if n !in seen {
        ReachesExtends(edges, root, k, n);
        ghost var before := seen;
        Discover(n, root);
        ExploredOn(edges, was, before, seen);
        FewerUnseen(nodes, before, seen);
      }
    }

    /** Records a newly met node and visits it. */
    method Discover(n: N, ghost root: N)
      requires Valid(root) && n !in seen && n in nodes && Reaches(edges, root, n)
      modifies this
      ensures Valid(root) && old(seen) + {n} <= seen
      ensures ExploredSince(edges, old(seen), seen)
      decreases Unseen(nodes, seen), 0
    {
      FewerUnseen(nodes, seen, seen + {n});
      seen := seen + {n};
      result := result + [n];
      Visit(n, root);
    }
  }

  ghost function Unseen<N(!new)>(nodes: set<N>, seen: set<N>): nat {
    |nodes - seen|
  }

  /** Every successor of the node has been seen. */
  ghost predicate Explored<N(!new)>(edges: Edges<N>, seen: set<N>, x: N) {
    forall n :: n in Successors(edges, x) ==> n in seen
  }

  /** Every node first seen since `was` is explored. */
  ghost predicate ExploredSince<N(!new)>(edges: Edges<N>, was: set<N>, seen: set<N>) {
    forall x :: x in seen - was ==> Explored(edges, seen, x)
  }

  lemma ExploredOn<N(!new)>(edges: Edges<N>, was: set<N>, seen: set<N>, later: set<N>)
    requires was <= seen <= later && ExploredSince(edges, was, seen) && ExploredSince(edges, seen, later)
    ensures ExploredSince(edges, was, later)
  {
    forall x | x in later - was ensures Explored(edges, later, x) {
      if x in seen {
        assert Explored(edges, seen, x);
      } else {
        assert x in later - seen;
      }
    }
  }

  lemma FewerUnseen<N(!new)>(nodes: set<N>, was: set<N>, seen: set<N>)
    requires was <= seen <= nodes
    ensures Unseen(nodes, seen) <= Unseen(nodes, was)
    ensures was != seen ==> Unseen(nodes, seen) < Unseen(nodes, was)
  {
    assert nodes - was == (nodes - seen) + (seen - was);
    assert was != seen ==> seen - was != {};
  }

  /** Exactly the nodes reachable by at least one edge, ascending and without duplicates. */
  method Dependencies(edges: Edges<string>, key: string) returns (result: seq<string>)
    ensures Text.Ascending(result, Self)
    ensures forall x :: x in result <==> Reaches(edges, key, x)
  {
    var search := new ClosureSearch(edges);
    search.Visit(key, key);
    result := Text.SortBy(search.result, Self);
    Text.SortByAscends(search.result, Self);
    Sorting.SameMembers(result, search.result);
    forall x | Reaches(edges, key, x) ensures x in search.seen {
      var p :| |p| >= 2 && IsPath(edges, p) && p[0] == key && p[|p| - 1] == x;
      assert EdgeAt(edges, p, 1);
      assert Explored(edges, search.seen, key);
      PathStaysSeen(edges, search.seen, p, |p| - 1);
    }
  }

  lemma {:induction false} PathStaysSeen(edges: Edges<string>, seen: set<string>, p: seq<string>, i: nat)
    requires ExploredSince(edges, {}, seen)
    requires IsPath(edges, p) && 1 <= i < |p| && p[1] in seen
    ensures p[i] in seen
  {
    if i > 1 {
      PathStaysSeen(edges, seen, p, i - 1);
      assert Explored(edges, seen, p[i - 1]);
      assert EdgeAt(edges, p, i);
    }
  }

  lemma SelfReachIsCycle(edges: Edges<string>, key: string)
    ensures Reaches(edges, key, key) ==> Cyclic(edges)
  {
    if Reaches(edges, key, key) {
      var p :| |p| >= 2 && IsPath(edges, p) && p[0] == key && p[|p| - 1] == key;
      assert IsCycle(edges, p);
    }
  }

  /** The checked closure fails exactly on cyclic graphs and never lists the key itself. */
  method DependenciesChecked(edges: Edges<string>, key: string) returns (r: Result<seq<string>>)
    ensures r.Err? <==> Cyclic(edges)
    ensures r.Ok? ==> Text.Ascending(r.value, Self) && key !in r.value
    ensures r.Ok? ==> forall x :: x in r.value <==> Reaches(edges, key, x)
  {
    var cyclic := HasCycle(edges);
    if cyclic {
      return Err(InvalidValue);
    }
    var deps := Dependencies(edges, key);
    SelfReachIsCycle(edges, key);
    return Ok(deps);
  }

  // ------------------------------------------------ graphs of version nodes

  function KeysOf(deps: seq<Dependency>): seq<string> {
    seq(|deps|, i requires 0 <= i < |deps| => deps[i].key)
  }

  /** `Graph.Add`: replaces the node's edges by the sorted dependency keys. */
  function Add(edges: Edges<string>, key: string, deps: seq<Dependency>): Edges<string> {
    edges[key := Text.SortBy(KeysOf(deps), Self)]
  }

  /** The node name of a version: `id@number`. */
  function VersionNode(v: ConfigVersion): string {
    v.configID + "@" + Text.Integer(v.number)
  }

  /** The graph `validateDependencies` builds from a configuration's versions. */
  function VersionGraph(versions: seq<ConfigVersion>): Edges<string> {
    if versions == [] then map[]
    else
      var last := versions[|versions| - 1];
      Add(VersionGraph(versions[..|versions| - 1]), VersionNode(last), last.dependencies)
  }

  /** Node names carry an `@`; edges point at the raw dependency keys. */
  lemma {:induction false} VersionGraphShape(versions: seq<ConfigVersion>)
    ensures forall k :: k in VersionGraph(versions) ==> '@' in k
    ensures forall k, n :: k in VersionGraph(versions) && n in VersionGraph(versions)[k] ==>
              exists i, j ::
                0 <= i < |versions| && 0 <= j < |versions[i].dependencies| && versions[i].dependencies[j].key == n
  {
    if versions != [] {
      var front, last := versions[..|versions| - 1], versions[|versions| - 1];
      VersionGraphShape(front);
      var keys := KeysOf(last.dependencies);
      Sorting.SameMembers(Text.SortBy(keys, Self), keys);
      forall k, n | k in VersionGraph(versions) && n in VersionGraph(versions)[k]
        ensures exists i, j ::
                  0 <= i < |versions| && 0 <= j < |versions[i].dependencies| && versions[i].dependencies[j].key == n
      {
        if k == VersionNode(last) {
          var j :| 0 <= j < |keys| && keys[j] == n;
          assert versions[|versions| - 1].dependencies[j].key == n;
        } else {
          var i, j :| 0 <= i < |front| && 0 <= j < |front[i].dependencies| && front[i].dependencies[j].key == n;
          assert versions[i].dependencies[j].key == n;
        }
      }
    }
  }

  /** A node points at exactly its dependency keys, required or not, and other nodes keep their edges. */
  lemma AddedNodeHasItsKeys(edges: Edges<string>, key: string, deps: seq<Dependency>, n: string)
    ensures key in Add(edges, key, deps)
    ensures n in Add(edges, key, deps)[key] <==> exists j :: 0 <= j < |deps| && deps[j].key == n
    ensures forall k :: k in edges && k != key ==> k in Add(edges, key, deps) && Add(edges, key, deps)[k] == edges[k]
  {
    Sorting.SameMembers(Text.SortBy(KeysOf(deps), Self), KeysOf(deps));
    KeysAreAll(deps, n);
  }

  lemma KeysAreAll(deps: seq<Dependency>, n: string)
    ensures n in KeysOf(deps) <==> exists j :: 0 <= j < |deps| && deps[j].key == n
  {
    assert forall j :: 0 <= j < |deps| ==> KeysOf(deps)[j] == deps[j].key;
    if n in KeysOf(deps) {
      var j :| 0 <= j < |deps| && KeysOf(deps)[j] == n;
    }
  }

  lemma CycleReturnsToItsStart<N(!new)>(edges: Edges<N>, p: seq<N>)
    requires IsCycle(edges, p)
    ensures p[0] in edges && exists k :: k in edges && p[0] in edges[k]
  {
    assert EdgeAt(edges, p, 1) && EdgeAt(edges, p, |p| - 1);
    assert p[|p| - 2] in edges && p[0] in edges[p[|p| - 2]];
  }

  /** While no dependency key contains an `@`, the cycle test on version nodes never fires. */
  lemma NoCycleAmongVersionNodes(versions: seq<ConfigVersion>)
    requires forall i, j :: 0 <= i < |versions| && 0 <= j < |versions[i].dependencies| ==>
               '@' !in versions[i].dependencies[j].key
    ensures !Cyclic(VersionGraph(versions))
  {
    VersionGraphShape(versions);
    var edges := VersionGraph(versions);
    forall p ensures !IsCycle(edges, p) {
      if IsCycle(edges, p) {
        CycleReturnsToItsStart(edges, p);
      }
    }
  }

  /** The hypothesis is needed: a dependency on the version's own node name is reported. */
  lemma OwnNodeNameIsACycle(v: ConfigVersion)
    requires v.dependencies == [Dependency(VersionNode(v), true)]
    ensures Cyclic(VersionGraph([v]))
  {
    var edges := VersionGraph([v]);
    var name := VersionNode(v);
    var keys := KeysOf(v.dependencies);
    Sorting.SameMembers(Text.SortBy(keys, Self), keys);
    assert [v][..0] == [] && keys[0] == name;
    assert [v][|[v]| - 1] == v && VersionGraph([]) == map[];
    assert edges == Add(VersionGraph([v][..0]), name, v.dependencies);
    assert name in keys;
    assert name in edges[name];
    PathExtends(edges, [name], name);
    assert IsCycle(edges, [name] + [name]);
  }
}
