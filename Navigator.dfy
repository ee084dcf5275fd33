/**
 * WorldNavigator: path existence by breadth-first search, the cheapest
 * connecting road set by Prim's algorithm, and the sum of all-pairs shortest
 * distances by Floyd–Warshall, rendered in binary.
 */
module Navigator {

  // ---------------------------------------------------------------------
  // Graphs given as edge lists
  // ---------------------------------------------------------------------

  /** An edge the code accepts: at least two entries, both endpoints in 0..n-1. */
  predicate ValidEdge(n: int, e: seq<int>) {
    |e| >= 2 && 0 <= e[0] < n && 0 <= e[1] < n
  }

  /** The edge joins u and v, in either direction. */
  predicate Joins(e: seq<int>, u: int, v: int)
    requires |e| >= 2
  {
    (e[0] == u && e[1] == v) || (e[0] == v && e[1] == u)
  }

  /** u and v are neighbours through one of the accepted edges. */
  ghost predicate Adjacent(n: int, edges: seq<seq<int>>, u: int, v: int) {
    exists k :: 0 <= k < |edges| && ValidEdge(n, edges[k]) && Joins(edges[k], u, v)
  }

  /** A walk: a nonempty sequence of cities, each adjacent to the next. */
  ghost predicate Walk(n: int, edges: seq<seq<int>>, w: seq<int>) {
    |w| > 0 && (forall i :: 0 <= i < |w| ==> 0 <= w[i] < n) &&
    forall i :: 0 <= i < |w| - 1 ==> Adjacent(n, edges, w[i], w[i + 1])
  }

  ghost predicate Reachable(n: int, edges: seq<seq<int>>, a: int, b: int) {
    exists w :: Walk(n, edges, w) && w[0] == a && w[|w| - 1] == b
  }

  /** Every neighbour of a member of S is in S. */
  ghost predicate Closed(n: int, edges: seq<seq<int>>, S: set<int>) {
    forall u, v :: u in S && Adjacent(n, edges, u, v) ==> v in S
  }

  lemma ReachSelf(n: int, edges: seq<seq<int>>, a: int)
    requires 0 <= a < n
    ensures Reachable(n, edges, a, a)
  {
    assert Walk(n, edges, [a]);
  }

  lemma ReachStep(n: int, edges: seq<seq<int>>, a: int, u: int, v: int)
    requires Reachable(n, edges, a, u) && Adjacent(n, edges, u, v)
    ensures Reachable(n, edges, a, v)
  {
    var w :| Walk(n, edges, w) && w[0] == a && w[|w| - 1] == u;
    var w' := w + [v];
    assert Walk(n, edges, w') by {
      forall i | 0 <= i < |w'| - 1 ensures Adjacent(n, edges, w'[i], w'[i + 1]) {
        if i < |w| - 1 {
          assert w'[i] == w[i] && w'[i + 1] == w[i + 1];
        }
      }
    }
  }

  /** A set that holds a and is closed under adjacency holds everything reachable from a. */
  lemma ReachClosed(n: int, edges: seq<seq<int>>, S: set<int>, a: int, b: int)
    requires a in S && Closed(n, edges, S) && Reachable(n, edges, a, b)
    ensures b in S
  {
    var w :| Walk(n, edges, w) && w[0] == a && w[|w| - 1] == b;
    var i := 0;
    while i < |w| - 1
      invariant 0 <= i <= |w| - 1 && w[i] in S
    {
      assert Adjacent(n, edges, w[i], w[i + 1]);
      i := i + 1;
    }
  }

  /** The cities 0..n-1. */
  ghost function Cities(n: int): (r: set<int>)
    ensures forall v :: v in r <==> 0 <= v < n
    ensures n >= 0 ==> |r| == n
    decreases n
  {
    if n <= 0 then {} else Cities(n - 1) + {n - 1}
  }

  /** A subset is no larger, and as large only when it is the whole set. */
  lemma SubsetSize<T>(a: set<T>, b: set<T>)
    requires a <= b
    ensures |a| <= |b| && (|a| == |b| ==> a == b)
  {
    var d := b - a;
    assert b == a + d && a * d == {};
    if |a| == |b| {
      assert |d| == 0;
    }
  }

  /** A set of cities holds at most n of them, and exactly n only when it holds them all. */
  lemma CitiesBound(S: set<int>, n: int)
    requires n >= 0 && forall v :: v in S ==> 0 <= v < n
    ensures |S| <= n && (|S| == n ==> S == Cities(n))
  {
    SubsetSize(S, Cities(n));
  }

  // ---------------------------------------------------------------------
  // pathExists
  // ---------------------------------------------------------------------

  /** A list of n empty neighbour lists. */
  function NoNeighbours<T>(n: nat): (adj: seq<seq<T>>)
    ensures |adj| == n && forall u :: 0 <= u < n ==> adj[u] == []
  {
    if n == 0 then [] else NoNeighbours(n - 1) + [[]]
  }

  /** Taking one more edge into account adds exactly the neighbours that edge joins. */
  lemma AdjacentPrefix(n: int, edges: seq<seq<int>>, k: nat, u: int, v: int)
    requires k < |edges|
    ensures Adjacent(n, edges[..k + 1], u, v) <==>
      Adjacent(n, edges[..k], u, v) || (ValidEdge(n, edges[k]) && Joins(edges[k], u, v))
  {
    if Adjacent(n, edges[..k + 1], u, v) {
      var j :| 0 <= j < k + 1 && ValidEdge(n, edges[..k + 1][j]) && Joins(edges[..k + 1][j], u, v);
      if j < k {
        assert edges[..k][j] == edges[j];
      }
    }
    if Adjacent(n, edges[..k], u, v) {
      var j :| 0 <= j < k && ValidEdge(n, edges[..k][j]) && Joins(edges[..k][j], u, v);
      assert edges[..k + 1][j] == edges[j];
    }
    if ValidEdge(n, edges[k]) && Joins(edges[k], u, v) {
      assert edges[..k + 1][k] == edges[k];
    }
  }

  /** The neighbour lists pathExists builds: v is listed for u exactly when an accepted edge joins them. */
  method BuildNeighbours(n: nat, edges: seq<seq<int>>) returns (adj: seq<seq<int>>)
    ensures |adj| == n
    ensures forall u, v :: 0 <= u < n ==> (v in adj[u] <==> Adjacent(n, edges, u, v))
  {
    adj := NoNeighbours(n);
    for k := 0 to |edges|
      invariant |adj| == n
      invariant forall u, v :: 0 <= u < n ==> (v in adj[u] <==> Adjacent(n, edges[..k], u, v))
    {
      var e := edges[k];
      if |e| >= 2 {
        var u, v := e[0], e[1];
        if 0 <= u < n && 0 <= v < n {
          adj := adj[u := adj[u] + [v]];
          adj := adj[v := adj[v] + [u]];
        }
      }
      forall x, y | 0 <= x < n ensures y in adj[x] <==> Adjacent(n, edges[..k + 1], x, y) {
        AdjacentPrefix(n, edges, k, x, y);
      }
    }
    assert edges[..|edges|] == edges;
  }

  /**
   * pathExists: true exactly when source and dest are cities and dest can be
   * reached from source over the accepted edges, each usable both ways.
   */
  method PathExists(n: int, edges: seq<seq<int>>, source: int, dest: int) returns (r: bool)
    ensures r <==> 0 <= source < n && 0 <= dest < n && Reachable(n, edges, source, dest)
  {
    if n <= 0 {
      return false;
    }
    if source < 0 || source >= n || dest < 0 || dest >= n {
      return false;
    }
    if source == dest {
      ReachSelf(n, edges, source);
      return true;
    }
    var adj := BuildNeighbours(n, edges);

    var seen := new bool[n](_ => false);
    var q := [source];
    seen[source] := true;
    ghost var S := {source};
    ReachSelf(n, edges, source);
    while q != []
      invariant forall v :: 0 <= v < n ==> (seen[v] <==> v in S)
      invariant source in S && dest !in S
      invariant forall v :: v in S ==> 0 <= v < n && Reachable(n, edges, source, v)
      invariant forall v :: v in q ==> v in S
      invariant forall u, v :: u in S && u !in q && Adjacent(n, edges, u, v) ==> v in S
      invariant |S| <= n
      decreases n - |S|, |q|
    {
      var u := q[0];
      assert u in q;
      q := q[1..];
      ghost var S0, q0 := S, q;
      var nb := adj[u];
      for i := 0 to |nb|
        invariant forall v :: 0 <= v < n ==> (seen[v] <==> v in S)
        invariant S0 <= S && source in S && dest !in S
        invariant forall v :: v in S ==> 0 <= v < n && Reachable(n, edges, source, v)
        invariant forall v :: v in q ==> v in S
        invariant forall w, v :: w in S && w !in q && w != u && Adjacent(n, edges, w, v) ==> v in S
        invariant forall j :: 0 <= j < i ==> nb[j] in S
        invariant S == S0 ==> q == q0
      {
        var v := nb[i];
        assert Adjacent(n, edges, u, v);
        if !seen[v] {
          if v == dest {
            ReachStep(n, edges, source, u, v);
            return true;
          }
          ReachStep(n, edges, source, u, v);
          seen[v] := true;
          S := S + {v};
          q := q + [v];
        }
      }
      CitiesBound(S, n);
      SubsetSize(S0, S);
    }
    assert Closed(n, edges, S);
    if Reachable(n, edges, source, dest) {
      ReachClosed(n, edges, S, source, dest);
    }
    return false;
  }

  // ---------------------------------------------------------------------
  // minBribeCost
  // ---------------------------------------------------------------------

  /** A neighbour-list entry {v, c}: the road leads to v and costs c. */
  datatype Arc = Arc(to: int, cost: int)

  /** A heap entry {c, u}: city u can be joined for c. */
  datatype Item = Item(cost: int, city: int)

  /** The order of std::greater on the pair {cost, city}: the smallest pair is on top. */
  predicate Before(a: Item, b: Item) {
    a.cost < b.cost || (a.cost == b.cost && a.city <= b.city)
  }

  /** What a road costs: gold * goldRate + silver * silverRate. */
  function Cost(road: seq<int>, goldRate: int, silverRate: int): int
    requires |road| >= 4
  {
    road[2] * goldRate + road[3] * silverRate
  }

  /** The roads minBribeCost reads: the first m of roadData. */
  function Roads(roadData: seq<seq<int>>, m: int): seq<seq<int>>
    requires m <= |roadData|
  {
    if m <= 0 then [] else roadData[..m]
  }

  /** Every road has its four fields and joins two cities. */
  ghost predicate RoadsOk(n: int, roads: seq<seq<int>>) {
    forall k :: 0 <= k < |roads| ==> |roads[k]| >= 4 && ValidEdge(n, roads[k])
  }

  /** The neighbour lists: {v, c} is listed for u exactly when some road joins u and v at cost c. */
  ghost predicate ArcsOf(n: int, roads: seq<seq<int>>, goldRate: int, silverRate: int, adj: seq<seq<Arc>>)
    requires RoadsOk(n, roads)
  {
    ArcsUpTo(n, roads, goldRate, silverRate, adj, |roads|)
  }

  /** The neighbour lists after the first i roads have been read. */
  ghost predicate ArcsUpTo(n: int, roads: seq<seq<int>>, goldRate: int, silverRate: int, adj: seq<seq<Arc>>, i: int)
    requires RoadsOk(n, roads) && i <= |roads|
  {
    |adj| == n &&
    forall u, a :: 0 <= u < n ==>
      (a in adj[u] <==> exists k :: 0 <= k < i && Joins(roads[k], u, a.to) && a.cost == Cost(roads[k], goldRate, silverRate))
  }

  ghost predicate Distinct(s: seq<int>) {
    forall i, j :: 0 <= i < j < |s| ==> s[i] != s[j]
  }

  /**
   * A tree grown from cities[0]: the cities are distinct, and road tree[i]
   * joins cities[i + 1] to one of the cities before it.
   */
  ghost predicate Grown(n: int, roads: seq<seq<int>>, cities: seq<int>, tree: seq<int>)
    requires RoadsOk(n, roads)
  {
    |cities| == |tree| + 1 && Distinct(cities) && (forall i :: 0 <= i < |cities| ==> 0 <= cities[i] < n) &&
    forall i :: 0 <= i < |tree| ==>
      0 <= tree[i] < |roads| && exists j :: 0 <= j <= i && Joins(roads[tree[i]], cities[j], cities[i + 1])
  }

  /** The roads in tree connect all n cities, grown from city 0. */
  ghost predicate SpanningTree(n: int, roads: seq<seq<int>>, tree: seq<int>)
    requires RoadsOk(n, roads)
  {
    (n == 0 && tree == []) ||
    exists cities :: |cities| == n && n > 0 && cities[0] == 0 && Grown(n, roads, cities, tree)
  }

  ghost predicate Connected(n: int, roads: seq<seq<int>>) {
    forall v :: 0 <= v < n ==> Reachable(n, roads, 0, v)
  }

  /** The summed cost of the roads in tree. */
  function TreeCost(roads: seq<seq<int>>, tree: seq<int>, goldRate: int, silverRate: int): int
    requires forall i :: 0 <= i < |tree| ==> 0 <= tree[i] < |roads| && |roads[tree[i]]| >= 4
  {
    if tree == [] then 0
    else TreeCost(roads, tree[..|tree| - 1], goldRate, silverRate) + Cost(roads[tree[|tree| - 1]], goldRate, silverRate)
  }

  /** Both rates and the gold and silver fields of every road are non-negative. */
  ghost predicate Priced(roads: seq<seq<int>>, goldRate: int, silverRate: int) {
    goldRate >= 0 && silverRate >= 0 &&
    forall k :: 0 <= k < |roads| ==> |roads[k]| >= 4 && roads[k][2] >= 0 && roads[k][3] >= 0
  }

  /**
   * With nonnegative rates and road fields the cost of a tree is never
   * negative, so -1 is reported only for a kingdom that is not connected.
   */
  lemma {:induction false} TreeCostNonNegative(roads: seq<seq<int>>, tree: seq<int>, goldRate: int, silverRate: int)
    requires forall i :: 0 <= i < |tree| ==> 0 <= tree[i] < |roads| && |roads[tree[i]]| >= 4
    requires goldRate >= 0 && silverRate >= 0
    requires forall i :: 0 <= i < |tree| ==> roads[tree[i]][2] >= 0 && roads[tree[i]][3] >= 0
    ensures TreeCost(roads, tree, goldRate, silverRate) >= 0
  {
    if tree != [] {
      TreeCostNonNegative(roads, tree[..|tree| - 1], goldRate, silverRate);
      var road := roads[tree[|tree| - 1]];
      ProductNonNegative(road[2], goldRate);
      ProductNonNegative(road[3], silverRate);
    }
  }

  lemma ProductNonNegative(x: int, y: int)
    requires x >= 0 && y >= 0
    ensures x * y >= 0
  {
  }

  /** A heap entry pushed from a joined city: road r leads from a city in V to it.city at cost it.cost. */
  ghost predicate EntryOk(n: int, roads: seq<seq<int>>, goldRate: int, silverRate: int, V: set<int>, it: Item, r: int)
    requires RoadsOk(n, roads)
  {
    0 <= r < |roads| && it.cost == Cost(roads[r], goldRate, silverRate) &&
    ((roads[r][0] in V && roads[r][1] == it.city) || (roads[r][1] in V && roads[r][0] == it.city))
  }

  lemma ArcAdjacent(n: int, roads: seq<seq<int>>, goldRate: int, silverRate: int, adj: seq<seq<Arc>>, u: int, v: int)
    requires RoadsOk(n, roads) && ArcsOf(n, roads, goldRate, silverRate, adj) && 0 <= u < n
    ensures Adjacent(n, roads, u, v) <==> exists a :: a in adj[u] && a.to == v
  {
    if Adjacent(n, roads, u, v) {
      var k :| 0 <= k < |roads| && ValidEdge(n, roads[k]) && Joins(roads[k], u, v);
      assert Arc(v, Cost(roads[k], goldRate, silverRate)) in adj[u];
    }
    if exists a :: a in adj[u] && a.to == v {
      var a :| a in adj[u] && a.to == v;
      var k :| 0 <= k < |roads| && Joins(roads[k], u, a.to) && a.cost == Cost(roads[k], goldRate, silverRate);
      assert ValidEdge(n, roads[k]);
    }
  }

  /** Taking one more road into account adds exactly the arcs that road gives. */
  lemma ArcsPrefix(roads: seq<seq<int>>, goldRate: int, silverRate: int, k: nat, u: int, a: Arc)
    requires k < |roads| && forall j :: 0 <= j < |roads| ==> |roads[j]| >= 4
    ensures (exists j :: 0 <= j < k + 1 && Joins(roads[j], u, a.to) && a.cost == Cost(roads[j], goldRate, silverRate)) <==>
      (exists j :: 0 <= j < k && Joins(roads[j], u, a.to) && a.cost == Cost(roads[j], goldRate, silverRate)) ||
      (Joins(roads[k], u, a.to) && a.cost == Cost(roads[k], goldRate, silverRate))
  {
  }

  /** The neighbour lists minBribeCost builds, each road listed at both of its ends. */
  method BuildArcs(n: nat, roads: seq<seq<int>>, goldRate: int, silverRate: int) returns (adj: seq<seq<Arc>>)
    requires RoadsOk(n, roads)
    ensures ArcsOf(n, roads, goldRate, silverRate, adj)
  {
    adj := NoNeighbours(n);
    for i := 0 to |roads|
      invariant ArcsUpTo(n, roads, goldRate, silverRate, adj, i)
    {
      var u, v := roads[i][0], roads[i][1];
      var c := roads[i][2] * goldRate + roads[i][3] * silverRate;
      adj := adj[u := adj[u] + [Arc(v, c)]];
      adj := adj[v := adj[v] + [Arc(u, c)]];
      forall x, a | 0 <= x < n
        ensures a in adj[x] <==> exists k :: 0 <= k < i + 1 && Joins(roads[k], x, a.to) && a.cost == Cost(roads[k], goldRate, silverRate)
      {
        ArcsPrefix(roads, goldRate, silverRate, i, x, a);
      }
      assert ArcsUpTo(n, roads, goldRate, silverRate, adj, i + 1);
    }
  }

  /** priority_queue::top: the position of the smallest entry. */
  method PopMin(pq: seq<Item>) returns (k: nat)
    requires |pq| > 0
    ensures k < |pq| && forall j :: 0 <= j < |pq| ==> Before(pq[k], pq[j])
  {
    k := 0;
    for j := 1 to |pq|
      invariant k < j && forall i :: 0 <= i < j ==> Before(pq[k], pq[i])
    {
      if !Before(pq[k], pq[j]) {
        k := j;
      }
    }
  }

  lemma AddOne(V: set<int>, u: int)
    requires u !in V
    ensures |V + {u}| == |V| + 1
  {
  }

  /** One more tree road raises the cost by that road's cost. */
  lemma TreeCostSnoc(roads: seq<seq<int>>, tree: seq<int>, r: int, goldRate: int, silverRate: int)
    requires forall i :: 0 <= i < |tree| ==> 0 <= tree[i] < |roads| && |roads[tree[i]]| >= 4
    requires 0 <= r < |roads| && |roads[r]| >= 4
    ensures TreeCost(roads, tree + [r], goldRate, silverRate) == TreeCost(roads, tree, goldRate, silverRate) + Cost(roads[r], goldRate, silverRate)
  {
    assert (tree + [r])[..|tree|] == tree;
  }

  /** Some entry of the heap is for city v. */
  ghost predicate Queued(pq: seq<Item>, v: int) {
    exists k :: 0 <= k < |pq| && pq[k].city == v
  }

  /** Every heap entry came from road via[k], out of a city in V. */
  ghost predicate Entries(n: int, roads: seq<seq<int>>, goldRate: int, silverRate: int, V: set<int>, pq: seq<Item>, via: seq<int>)
    requires RoadsOk(n, roads)
  {
    |pq| == |via| && forall k :: 0 <= k < |pq| ==> EntryOk(n, roads, goldRate, silverRate, V, pq[k], via[k])
  }

  /** Each neighbour of a city in V is in W or waits in the heap. */
  ghost predicate Frontier(n: int, roads: seq<seq<int>>, V: set<int>, W: set<int>, pq: seq<Item>) {
    forall w, v :: w in V && Adjacent(n, roads, w, v) ==> v in W || Queued(pq, v)
  }

  lemma QueuedPush(pq: seq<Item>, x: Item, v: int)
    ensures Queued(pq + [x], x.city)
    ensures Queued(pq, v) ==> Queued(pq + [x], v)
  {
    assert (pq + [x])[|pq|] == x;
    if Queued(pq, v) {
      var k :| 0 <= k < |pq| && pq[k].city == v;
      assert (pq + [x])[k] == pq[k];
    }
  }

  /** Popping entry k loses only that entry's city. */
  lemma FrontierRemove(n: int, roads: seq<seq<int>>, V: set<int>, W: set<int>, W': set<int>, pq: seq<Item>, k: nat)
    requires Frontier(n, roads, V, W, pq) && W <= W' && k < |pq| && pq[k].city in W'
    ensures Frontier(n, roads, V, W', pq[..k] + pq[k + 1..])
  {
    var pq' := pq[..k] + pq[k + 1..];
    forall w, v | w in V && Adjacent(n, roads, w, v) && v !in W'
      ensures Queued(pq', v)
    {
      var j :| 0 <= j < |pq| && pq[j].city == v;
      if j < k {
        assert pq'[j] == pq[j];
      } else {
        assert pq'[j - 1] == pq[j];
      }
    }
  }

  lemma FrontierPush(n: int, roads: seq<seq<int>>, V: set<int>, W: set<int>, pq: seq<Item>, x: Item)
    requires Frontier(n, roads, V, W, pq)
    ensures Frontier(n, roads, V, W, pq + [x])
  {
    forall v | Queued(pq, v)
      ensures Queued(pq + [x], v)
    {
      QueuedPush(pq, x, v);
    }
  }

  lemma EntriesRemove(n: int, roads: seq<seq<int>>, goldRate: int, silverRate: int, V: set<int>, W: set<int>, pq: seq<Item>, via: seq<int>, k: nat)
    requires RoadsOk(n, roads) && Entries(n, roads, goldRate, silverRate, V, pq, via) && k < |pq| && V <= W
    ensures Entries(n, roads, goldRate, silverRate, W, pq[..k] + pq[k + 1..], via[..k] + via[k + 1..])
  {
    var pq', via' := pq[..k] + pq[k + 1..], via[..k] + via[k + 1..];
    forall j | 0 <= j < |pq'|
      ensures EntryOk(n, roads, goldRate, silverRate, W, pq'[j], via'[j])
    {
      if j < k {
        assert pq'[j] == pq[j] && via'[j] == via[j];
      } else {
        assert pq'[j] == pq[j + 1] && via'[j] == via[j + 1];
        assert EntryOk(n, roads, goldRate, silverRate, V, pq[j + 1], via[j + 1]);
      }
    }
  }

  lemma EntriesPush(n: int, roads: seq<seq<int>>, goldRate: int, silverRate: int, V: set<int>, pq: seq<Item>, via: seq<int>, x: Item, r: int)
    requires RoadsOk(n, roads) && Entries(n, roads, goldRate, silverRate, V, pq, via)
    requires EntryOk(n, roads, goldRate, silverRate, V, x, r)
    ensures Entries(n, roads, goldRate, silverRate, V, pq + [x], via + [r])
  {
    forall j | 0 <= j < |pq| + 1
      ensures EntryOk(n, roads, goldRate, silverRate, V, (pq + [x])[j], (via + [r])[j])
    {
      if j < |pq| {
        assert (pq + [x])[j] == pq[j] && (via + [r])[j] == via[j];
      }
    }
  }

  /** Joining city u by road r, out of city x already in the tree, grows the tree. */
  lemma GrowStep(n: int, roads: seq<seq<int>>, cities: seq<int>, tree: seq<int>, u: int, r: int, x: int)
    requires RoadsOk(n, roads) && Grown(n, roads, cities, tree)
    requires x in cities && u !in cities && 0 <= u < n && 0 <= r < |roads| && Joins(roads[r], x, u)
    ensures Grown(n, roads, cities + [u], tree + [r])
  {
    var c', t' := cities + [u], tree + [r];
    var j :| 0 <= j < |cities| && cities[j] == x;
    forall i | 0 <= i < |t'|
      ensures 0 <= t'[i] < |roads| && exists j :: 0 <= j <= i && Joins(roads[t'[i]], c'[j], c'[i + 1])
    {
      if i < |tree| {
        var j :| 0 <= j <= i && Joins(roads[tree[i]], cities[j], cities[i + 1]);
        assert t'[i] == tree[i] && c'[j] == cities[j] && c'[i + 1] == cities[i + 1];
      } else {
        assert t'[i] == r && c'[j] == x && c'[i + 1] == u;
      }
    }
  }

  /** The heap without its entry k. */
  function Removed<T>(s: seq<T>, k: nat): (r: seq<T>)
    requires k < |s|
    ensures |r| == |s| - 1 && forall j :: 0 <= j < |r| ==> r[j] == if j < k then s[j] else s[j + 1]
  {
    s[..k] + s[k + 1..]
  }

  /**
   * The tree of joined cities: V holds exactly the cities joined so far,
   * each reachable from city 0, and once city 0 is joined the tree roads
   * connect them and cost is what those roads cost.
   */
  ghost predicate Tree(n: int, roads: seq<seq<int>>, goldRate: int, silverRate: int, V: set<int>, cities: seq<int>, tree: seq<int>, cost: int)
    requires RoadsOk(n, roads)
  {
    (forall v :: v in V <==> v in cities) && |V| == |cities| &&
    (forall v :: v in V ==> 0 <= v < n && Reachable(n, roads, 0, v)) &&
    (cities != [] ==> cities[0] == 0 && Grown(n, roads, cities, tree) && cost == TreeCost(roads, tree, goldRate, silverRate))
  }

  /** visited[v] is set exactly for the cities in V. */
  ghost predicate Flags(n: int, visited: seq<bool>, V: set<int>) {
    |visited| == n && forall v :: 0 <= v < n ==> (visited[v] <==> v in V)
  }

  /** vector<bool>(n, false). */
  function Unmarked(n: nat): (r: seq<bool>)
    ensures Flags(n, r, {})
  {
    if n == 0 then [] else Unmarked(n - 1) + [false]
  }

  /** Setting visited[u] adds u to the joined cities. */
  lemma Mark(n: int, visited: seq<bool>, V: set<int>, u: int)
    requires Flags(n, visited, V) && 0 <= u < n
    ensures Flags(n, visited[u := true], V + {u})
  {
  }

  /** The state of Prim's loop, apart from the visited flags. */
  ghost predicate Prim(n: int, roads: seq<seq<int>>, goldRate: int, silverRate: int, V: set<int>, cities: seq<int>, tree: seq<int>, cost: int,
                       pq: seq<Item>, via: seq<int>)
    requires RoadsOk(n, roads)
  {
    |pq| == |via| && Tree(n, roads, goldRate, silverRate, V, cities, tree, cost) &&
    (cities == [] ==> pq == [Item(0, 0)] && tree == [] && cost == 0) &&
    (cities != [] ==> Entries(n, roads, goldRate, silverRate, V, pq, via)) &&
    Frontier(n, roads, V, V, pq)
  }

  /** Every city on the heap is one of the n cities. */
  lemma Popped(n: int, roads: seq<seq<int>>, goldRate: int, silverRate: int, V: set<int>, cities: seq<int>, tree: seq<int>, cost: int,
               pq: seq<Item>, via: seq<int>, k: nat)
    requires RoadsOk(n, roads) && n > 0 && Prim(n, roads, goldRate, silverRate, V, cities, tree, cost, pq, via) && k < |pq|
    ensures 0 <= pq[k].city < n
  {
    if cities != [] {
      assert EntryOk(n, roads, goldRate, silverRate, V, pq[k], via[k]);
      assert ValidEdge(n, roads[via[k]]);
    }
  }

  /** Popping entry k, for a city not yet joined, and joining that city keeps the tree and the heap in order. */
  lemma Join(n: int, roads: seq<seq<int>>, goldRate: int, silverRate: int, V: set<int>, cities: seq<int>, tree: seq<int>, cost: int,
             pq: seq<Item>, via: seq<int>, k: nat)
    requires RoadsOk(n, roads) && n > 0 && Prim(n, roads, goldRate, silverRate, V, cities, tree, cost, pq, via)
    requires k < |pq| && pq[k].city !in V
    ensures 0 <= pq[k].city < n && |V + {pq[k].city}| == |V| + 1
    ensures Tree(n, roads, goldRate, silverRate, V + {pq[k].city}, cities + [pq[k].city],
                 if cities == [] then tree else tree + [via[k]], cost + pq[k].cost)
    ensures Entries(n, roads, goldRate, silverRate, V + {pq[k].city}, Removed(pq, k), Removed(via, k))
    ensures Frontier(n, roads, V, V + {pq[k].city}, Removed(pq, k))
  {
    var u, road := pq[k].city, via[k];
    var V', cities' := V + {u}, cities + [u];
    AddOne(V, u);
    FrontierRemove(n, roads, V, V, V', pq, k);
    if cities == [] {
      ReachSelf(n, roads, 0);
      assert cities' == [0] && Grown(n, roads, cities', tree);
    } else {
      assert EntryOk(n, roads, goldRate, silverRate, V, pq[k], road);
      var x := if roads[road][1] == u && roads[road][0] in V then roads[road][0] else roads[road][1];
      assert x in V && Joins(roads[road], x, u) && ValidEdge(n, roads[road]);
      assert Adjacent(n, roads, x, u);
      ReachStep(n, roads, 0, x, u);
      GrowStep(n, roads, cities, tree, u, road, x);
      TreeCostSnoc(roads, tree, road, goldRate, silverRate);
      EntriesRemove(n, roads, goldRate, silverRate, V, V', pq, via, k);
      assert cities'[0] == cities[0];
    }
  }

  /** Popping entry k, for a city already joined, keeps the heap in order. */
  lemma Skip(n: int, roads: seq<seq<int>>, goldRate: int, silverRate: int, V: set<int>, cities: seq<int>, tree: seq<int>, cost: int,
             pq: seq<Item>, via: seq<int>, k: nat)
    requires RoadsOk(n, roads) && Prim(n, roads, goldRate, silverRate, V, cities, tree, cost, pq, via)
    requires k < |pq| && pq[k].city in V
    ensures Prim(n, roads, goldRate, silverRate, V, cities, tree, cost, Removed(pq, k), Removed(via, k))
  {
    assert pq[k].city in cities;
    FrontierRemove(n, roads, V, V, V, pq, k);
    EntriesRemove(n, roads, goldRate, silverRate, V, V, pq, via, k);
  }

  /** Some road joins u to a.to at cost a.cost. */
  ghost predicate RoadFor(n: int, roads: seq<seq<int>>, goldRate: int, silverRate: int, u: int, a: Arc)
    requires RoadsOk(n, roads)
  {
    exists r :: 0 <= r < |roads| && Joins(roads[r], u, a.to) && a.cost == Cost(roads[r], goldRate, silverRate)
  }

  /** The neighbour list of city u: each entry is a road out of u, and each road out of u is listed. */
  ghost predicate ArcsFrom(n: int, roads: seq<seq<int>>, goldRate: int, silverRate: int, arcs: seq<Arc>, u: int)
    requires RoadsOk(n, roads)
  {
    (forall j :: 0 <= j < |arcs| ==> RoadFor(n, roads, goldRate, silverRate, u, arcs[j])) &&
    forall v :: Adjacent(n, roads, u, v) ==> exists j :: 0 <= j < |arcs| && arcs[j].to == v
  }

  /** The neighbour lists BuildArcs returns, read one city at a time. */
  lemma ArcsAt(n: int, roads: seq<seq<int>>, goldRate: int, silverRate: int, adj: seq<seq<Arc>>, u: int)
    requires RoadsOk(n, roads) && ArcsOf(n, roads, goldRate, silverRate, adj) && 0 <= u < n
    ensures ArcsFrom(n, roads, goldRate, silverRate, adj[u], u)
  {
    forall j | 0 <= j < |adj[u]|
      ensures RoadFor(n, roads, goldRate, silverRate, u, adj[u][j])
    {
      var a := adj[u][j];
      assert a in adj[u];
      assert ArcsUpTo(n, roads, goldRate, silverRate, adj, |roads|);
      var r :| 0 <= r < |roads| && Joins(roads[r], u, a.to) && a.cost == Cost(roads[r], goldRate, silverRate);
    }
    forall v | Adjacent(n, roads, u, v)
      ensures exists j :: 0 <= j < |adj[u]| && adj[u][j].to == v
    {
      ArcAdjacent(n, roads, goldRate, silverRate, adj, u, v);
      var a: Arc :| a in adj[u] && a.to == v;
      var j :| 0 <= j < |adj[u]| && adj[u][j] == a;
    }
  }

  /**
   * The loop over adj[u] after joining u: every road out of u to a city
   * not yet joined goes onto the heap.
   */
  method Offer(n: int, roads: seq<seq<int>>, goldRate: int, silverRate: int, arcs: seq<Arc>, visited: seq<bool>, u: int,
               ghost V0: set<int>, ghost V: set<int>, pq: seq<Item>, ghost via: seq<int>) returns (pq': seq<Item>, ghost via': seq<int>)
    requires RoadsOk(n, roads) && 0 <= u < n && V == V0 + {u} && Flags(n, visited, V)
    requires ArcsFrom(n, roads, goldRate, silverRate, arcs, u)
    requires Entries(n, roads, goldRate, silverRate, V, pq, via) && Frontier(n, roads, V0, V, pq)
    ensures Entries(n, roads, goldRate, silverRate, V, pq', via') && Frontier(n, roads, V, V, pq')
  {
    pq', via' := pq, via;
    for idx := 0 to |arcs|
      invariant Entries(n, roads, goldRate, silverRate, V, pq', via') && Frontier(n, roads, V0, V, pq')
      invariant forall j :: 0 <= j < idx ==> arcs[j].to in V || Queued(pq', arcs[j].to)
    {
      var a := arcs[idx];
      ghost var rk :| 0 <= rk < |roads| && Joins(roads[rk], u, a.to) && a.cost == Cost(roads[rk], goldRate, silverRate);
      assert ValidEdge(n, roads[rk]);
      if !visited[a.to] {
        ghost var pq1 := pq';
        EntriesPush(n, roads, goldRate, silverRate, V, pq', via', Item(a.cost, a.to), rk);
        FrontierPush(n, roads, V0, V, pq', Item(a.cost, a.to));
        pq' := pq' + [Item(a.cost, a.to)];
        via' := via' + [rk];
        forall v | Queued(pq1, v)
          ensures Queued(pq', v)
        {
          QueuedPush(pq1, Item(a.cost, a.to), v);
        }
        QueuedPush(pq1, Item(a.cost, a.to), a.to);
      }
    }
    forall w, v | w in V && Adjacent(n, roads, w, v)
      ensures v in V || Queued(pq', v)
    {
      if w == u {
        var j :| 0 <= j < |arcs| && arcs[j].to == v;
      }
    }
  }

  /** A set of fewer than n cities misses one of them. */
  lemma Outside(V: set<int>, n: int) returns (v: int)
    requires |V| < n && forall x :: x in V ==> 0 <= x < n
    ensures 0 <= v < n && v !in V
  {
    if n - 1 in V {
      var V' := V - {n - 1};
      assert V == V' + {n - 1};
      AddOne(V', n - 1);
      v := Outside(V', n - 1);
    } else {
      v := n - 1;
    }
  }

  /** When the heap runs dry before every city is joined, some city cannot be reached from city 0. */
  lemma Stranded(n: int, roads: seq<seq<int>>, V: set<int>)
    requires 0 in V && Frontier(n, roads, V, V, []) && |V| < n && forall v :: v in V ==> 0 <= v < n
    ensures !Connected(n, roads)
  {
    assert Closed(n, roads, V);
    var v := Outside(V, n);
    if Reachable(n, roads, 0, v) {
      ReachClosed(n, roads, V, 0, v);
    }
  }

  /**
   * minBribeCost: Prim's algorithm from city 0. When some city cannot be
   * reached the result is -1; otherwise it is the cost of a set of roads
   * that connects every city.
   */
  method MinBribeCost(n: int, m: int, goldRate: int, silverRate: int, roadData: seq<seq<int>>) returns (r: int)
    requires n >= 0 && m <= |roadData| && RoadsOk(n, Roads(roadData, m))
    ensures !Connected(n, Roads(roadData, m)) ==> r == -1
    ensures Connected(n, Roads(roadData, m)) ==>
      exists tree :: SpanningTree(n, Roads(roadData, m), tree) && r == TreeCost(Roads(roadData, m), tree, goldRate, silverRate)
    ensures Priced(Roads(roadData, m), goldRate, silverRate) ==> (r == -1 <==> !Connected(n, Roads(roadData, m)))
  {
    var roads := Roads(roadData, m);
    var adj := BuildArcs(n, roads, goldRate, silverRate);
    var visited := Unmarked(n);
    var pq := [Item(0, 0)];
    ghost var via := [-1];
    var totalCost := 0;
    var visitedCount := 0;
    ghost var cities: seq<int> := [];
    ghost var tree: seq<int> := [];
    ghost var V: set<int> := {};
    while pq != [] && visitedCount < n
      invariant Flags(n, visited, V) && visitedCount == |V|
      invariant Prim(n, roads, goldRate, silverRate, V, cities, tree, totalCost, pq, via)
      decreases n - visitedCount, |pq|
    {
      var k := PopMin(pq);
      var c, u := pq[k].cost, pq[k].city;
      ghost var pq0, via0 := pq, via;
      Popped(n, roads, goldRate, silverRate, V, cities, tree, totalCost, pq, via, k);
      pq, via := Removed(pq, k), Removed(via, k);
      if visited[u] {
        Skip(n, roads, goldRate, silverRate, V, cities, tree, totalCost, pq0, via0, k);
        continue;
      }
      Join(n, roads, goldRate, silverRate, V, cities, tree, totalCost, pq0, via0, k);
      ghost var V0 := V;
      tree := if cities == [] then tree else tree + [via0[k]];
      cities := cities + [u];
      V := V + {u};
      Mark(n, visited, V0, u);
      visited := visited[u := true];
      totalCost := totalCost + c;
      visitedCount := visitedCount + 1;
      ArcsAt(n, roads, goldRate, silverRate, adj, u);
      pq, via := Offer(n, roads, goldRate, silverRate, adj[u], visited, u, V0, V, pq, via);
    }
    CitiesBound(V, n);
    if visitedCount != n {
      Stranded(n, roads, V);
      return -1;
    }
    assert V == Cities(n);
    assert SpanningTree(n, roads, tree) && totalCost == TreeCost(roads, tree, goldRate, silverRate) by {
      if n > 0 {
        assert |cities| == n && cities[0] == 0 && Grown(n, roads, cities, tree);
      }
    }
    if Priced(roads, goldRate, silverRate) {
      TreeCostNonNegative(roads, tree, goldRate, silverRate);
    }
    return totalCost;
  }

  // ---------------------------------------------------------------------
  // sumMinDistancesBinary
  // ---------------------------------------------------------------------

  /** The "infinite" distance 1 << 60 the code marks unreachable pairs with. */
  const INF: int := 0x1000_0000_0000_0000

  /** A road the code reads: at least {u, v, w}, both ends in 0..n-1. It leads from u to v. */
  predicate Accepted(n: int, e: seq<int>) {
    |e| >= 3 && 0 <= e[0] < n && 0 <= e[1] < n
  }

  /** std::min(d, w). */
  function Min(d: int, w: int): (r: int)
    ensures r <= d && r <= w && (r == d || r == w)
  {
    if w < d then w else d
  }

  /**
   * The matrix before relaxation: 0 on the diagonal, INF elsewhere, lowered
   * to the lightest accepted road from i to j.
   */
  function Direct(n: int, roads: seq<seq<int>>, i: int, j: int): int
    decreases |roads|
  {
    if roads == [] then (if i == j then 0 else INF)
    else
      var e := roads[|roads| - 1];
      var d := Direct(n, roads[..|roads| - 1], i, j);
      if Accepted(n, e) && e[0] == i && e[1] == j then Min(d, e[2]) else d
  }

  /**
   * The entry (i, j) after the rounds for intermediates 0..k-1 of Floyd–Warshall,
   * with the code's skips: a pair whose leg through k-1 is INF is left alone.
   */
  function Through(n: int, roads: seq<seq<int>>, k: int, i: int, j: int): int
    requires 0 <= k <= n && 0 <= i < n && 0 <= j < n
    decreases k
  {
    if k == 0 then Direct(n, roads, i, j)
    else
      var a, b, c := Through(n, roads, k - 1, i, k - 1), Through(n, roads, k - 1, k - 1, j), Through(n, roads, k - 1, i, j);
      if a != INF && b != INF && a + b < c then a + b else c
  }

  /** The distance the code reports from i to j. */
  function Shortest(n: int, roads: seq<seq<int>>, i: int, j: int): int
    requires 0 <= i < n && 0 <= j < n
  {
    Through(n, roads, n, i, j)
  }

  /** No accepted road has a negative weight. */
  ghost predicate NonNegative(n: int, roads: seq<seq<int>>) {
    forall r :: 0 <= r < |roads| && Accepted(n, roads[r]) ==> roads[r][2] >= 0
  }

  /**
   * A route from i to j: the accepted roads p[0], p[1], ... taken in turn,
   * each leaving where the one before arrived, and stopping on the way only
   * at cities below k. The empty route stays at i.
   */
  ghost predicate Route(n: int, roads: seq<seq<int>>, p: seq<int>, i: int, j: int, k: int) {
    (forall t :: 0 <= t < |p| ==> 0 <= p[t] < |roads| && Accepted(n, roads[p[t]])) &&
    (|p| == 0 ==> i == j) &&
    (|p| > 0 ==> roads[p[0]][0] == i && roads[p[|p| - 1]][1] == j) &&
    forall t :: 0 <= t < |p| - 1 ==> roads[p[t]][1] == roads[p[t + 1]][0] && roads[p[t]][1] < k
  }

  /** The summed weight of the roads on p. */
  function Weight(roads: seq<seq<int>>, p: seq<int>): int
    requires forall t :: 0 <= t < |p| ==> 0 <= p[t] < |roads| && |roads[p[t]]| >= 3
  {
    if p == [] then 0 else Weight(roads, p[..|p| - 1]) + roads[p[|p| - 1]][2]
  }

  lemma {:induction false} WeightAppend(roads: seq<seq<int>>, p: seq<int>, q: seq<int>)
    requires forall t :: 0 <= t < |p| ==> 0 <= p[t] < |roads| && |roads[p[t]]| >= 3
    requires forall t :: 0 <= t < |q| ==> 0 <= q[t] < |roads| && |roads[q[t]]| >= 3
    ensures Weight(roads, p + q) == Weight(roads, p) + Weight(roads, q)
    decreases |q|
  {
    if q == [] {
      assert p + q == p;
    } else {
      WeightAppend(roads, p, q[..|q| - 1]);
      assert (p + q)[..|p + q| - 1] == p + q[..|q| - 1];
    }
  }

  lemma {:induction false} WeightNonNegative(n: int, roads: seq<seq<int>>, p: seq<int>)
    requires NonNegative(n, roads)
    requires forall t :: 0 <= t < |p| ==> 0 <= p[t] < |roads| && Accepted(n, roads[p[t]])
    ensures Weight(roads, p) >= 0
    decreases |p|
  {
    if p != [] {
      WeightNonNegative(n, roads, p[..|p| - 1]);
    }
  }

  /** Joining a route from i to m with one from m to j, where m is below k, gives a route from i to j. */
  lemma RouteAppend(n: int, roads: seq<seq<int>>, p: seq<int>, q: seq<int>, i: int, m: int, j: int, k: int)
    requires Route(n, roads, p, i, m, k) && Route(n, roads, q, m, j, k) && m < k
    ensures Route(n, roads, p + q, i, j, k)
  {
    var pq := p + q;
    forall t | 0 <= t < |pq| - 1
      ensures roads[pq[t]][1] == roads[pq[t + 1]][0] && roads[pq[t]][1] < k
    {
      if t < |p| - 1 {
        assert pq[t] == p[t] && pq[t + 1] == p[t + 1];
      } else if t == |p| - 1 {
        assert pq[t] == p[|p| - 1] && pq[t + 1] == q[0];
      } else {
        assert pq[t] == q[t - |p|] && pq[t + 1] == q[t - |p| + 1];
      }
    }
  }

  /** The first place a route stops at v. */
  lemma FirstStop(roads: seq<seq<int>>, p: seq<int>, v: int, t0: int) returns (t: int)
    requires forall s :: 0 <= s < |p| ==> 0 <= p[s] < |roads| && |roads[p[s]]| >= 3
    requires 0 <= t0 < |p| - 1 && roads[p[t0]][1] == v
    ensures 0 <= t <= t0 && roads[p[t]][1] == v && forall s :: 0 <= s < t ==> roads[p[s]][1] != v
  {
    t := 0;
    while roads[p[t]][1] != v
      invariant 0 <= t <= t0 && forall s :: 0 <= s < t ==> roads[p[s]][1] != v
      decreases t0 - t
    {
      t := t + 1;
    }
  }

  /** The part of a route up to its first stop at k-1 stops only below k-1. */
  lemma RouteFront(n: int, roads: seq<seq<int>>, p: seq<int>, i: int, j: int, k: int, t: int)
    requires Route(n, roads, p, i, j, k) && 0 <= t < |p| - 1 && roads[p[t]][1] == k - 1
    requires forall s :: 0 <= s < t ==> roads[p[s]][1] != k - 1
    ensures Route(n, roads, p[..t + 1], i, k - 1, k - 1)
  {
    var p1 := p[..t + 1];
    assert forall s :: 0 <= s < |p1| ==> p1[s] == p[s];
    forall s | 0 <= s < |p1| - 1
      ensures roads[p1[s]][1] == roads[p1[s + 1]][0] && roads[p1[s]][1] < k - 1
    {
      assert p1[s] == p[s] && p1[s + 1] == p[s + 1];
    }
  }

  /** The part of a route after a stop at m is a route from m. */
  lemma RouteBack(n: int, roads: seq<seq<int>>, p: seq<int>, i: int, j: int, k: int, t: int)
    requires Route(n, roads, p, i, j, k) && 0 <= t < |p| - 1
    ensures Route(n, roads, p[t + 1..], roads[p[t]][1], j, k)
  {
    var p2 := p[t + 1..];
    assert forall s :: 0 <= s < |p2| ==> p2[s] == p[t + 1 + s];
    forall s | 0 <= s < |p2| - 1
      ensures roads[p2[s]][1] == roads[p2[s + 1]][0] && roads[p2[s]][1] < k
    {
      assert p2[s] == p[t + 1 + s] && p2[s + 1] == p[t + 1 + s + 1];
    }
    assert p2[0] == p[t + 1] && p2[|p2| - 1] == p[|p| - 1];
  }

  /**
   * A route through k-1 splits where it first reaches k-1: the first part
   * stops only below k-1, the second is shorter.
   */
  lemma RouteSplit(n: int, roads: seq<seq<int>>, p: seq<int>, i: int, j: int, k: int, t0: int) returns (t: int)
    requires Route(n, roads, p, i, j, k) && k >= 1
    requires 0 <= t0 < |p| - 1 && roads[p[t0]][1] == k - 1
    ensures 0 <= t < |p| - 1 && p == p[..t + 1] + p[t + 1..]
    ensures Route(n, roads, p[..t + 1], i, k - 1, k - 1)
    ensures Route(n, roads, p[t + 1..], k - 1, j, k)
  {
    t := FirstStop(roads, p, k - 1, t0);
    RouteFront(n, roads, p, i, j, k, t);
    RouteBack(n, roads, p, i, j, k, t);
  }

  /** A route that never stops at k-1 stops only below k-1. */
  lemma RouteNarrow(n: int, roads: seq<seq<int>>, p: seq<int>, i: int, j: int, k: int)
    requires Route(n, roads, p, i, j, k) && forall t :: 0 <= t < |p| - 1 ==> roads[p[t]][1] != k - 1
    ensures Route(n, roads, p, i, j, k - 1)
  {
  }

  // Facts about the matrix before relaxation.

  lemma {:induction false} DirectBound(n: int, roads: seq<seq<int>>, i: int, j: int)
    ensures Direct(n, roads, i, j) <= (if i == j then 0 else INF)
    decreases |roads|
  {
    if roads != [] {
      DirectBound(n, roads[..|roads| - 1], i, j);
    }
  }

  /** Direct(i, j) is at most the weight of every accepted road from i to j. */
  lemma {:induction false} DirectLeast(n: int, roads: seq<seq<int>>, r: int, i: int, j: int)
    requires 0 <= r < |roads| && Accepted(n, roads[r]) && roads[r][0] == i && roads[r][1] == j
    ensures Direct(n, roads, i, j) <= roads[r][2]
    decreases |roads|
  {
    if r < |roads| - 1 {
      DirectLeast(n, roads[..|roads| - 1], r, i, j);
    }
  }

  /** Direct(i, j) is the starting value or the weight of some accepted road from i to j. */
  lemma {:induction false} DirectAttained(n: int, roads: seq<seq<int>>, i: int, j: int)
    ensures Direct(n, roads, i, j) == (if i == j then 0 else INF) ||
      exists r :: 0 <= r < |roads| && Accepted(n, roads[r]) && roads[r][0] == i && roads[r][1] == j && roads[r][2] == Direct(n, roads, i, j)
    decreases |roads|
  {
    if roads != [] {
      var front := roads[..|roads| - 1];
      DirectAttained(n, front, i, j);
      var d := Direct(n, front, i, j);
      if d != Direct(n, roads, i, j) {
        assert Direct(n, roads, i, j) == roads[|roads| - 1][2];
      } else if d != (if i == j then 0 else INF) {
        var r :| 0 <= r < |front| && Accepted(n, front[r]) && front[r][0] == i && front[r][1] == j && front[r][2] == d;
        assert roads[r] == front[r];
      }
    }
  }

  // Facts about the rounds.

  /** A round never raises an entry, so every entry stays at most INF. */
  lemma {:induction false} ThroughBound(n: int, roads: seq<seq<int>>, k: int, i: int, j: int)
    requires 0 <= k <= n && 0 <= i < n && 0 <= j < n
    ensures Through(n, roads, k, i, j) <= Direct(n, roads, i, j) <= (if i == j then 0 else INF)
    decreases k
  {
    DirectBound(n, roads, i, j);
    if k > 0 {
      ThroughBound(n, roads, k - 1, i, j);
    }
  }

  /** With no negative road every entry is nonnegative, and the diagonal stays 0. */
  lemma {:induction false} ThroughNonNegative(n: int, roads: seq<seq<int>>, k: int, i: int, j: int)
    requires NonNegative(n, roads) && 0 <= k <= n && 0 <= i < n && 0 <= j < n
    ensures Through(n, roads, k, i, j) >= 0
    ensures i == j ==> Through(n, roads, k, i, j) == 0
    decreases k
  {
    ThroughBound(n, roads, k, i, j);
    if k == 0 {
      if Direct(n, roads, i, j) != (if i == j then 0 else INF) {
        DirectAttained(n, roads, i, j);
      }
    } else {
      ThroughNonNegative(n, roads, k - 1, i, k - 1);
      ThroughNonNegative(n, roads, k - 1, k - 1, j);
      ThroughNonNegative(n, roads, k - 1, i, j);
    }
  }

  /** The round for k-1 touches neither row k-1 nor column k-1 when no road is negative. */
  lemma CrossStable(n: int, roads: seq<seq<int>>, k: int, i: int)
    requires NonNegative(n, roads) && 1 <= k <= n && 0 <= i < n
    ensures Through(n, roads, k, i, k - 1) == Through(n, roads, k - 1, i, k - 1)
    ensures Through(n, roads, k, k - 1, i) == Through(n, roads, k - 1, k - 1, i)
  {
    ThroughNonNegative(n, roads, k - 1, k - 1, k - 1);
  }

  /** Every entry below INF is the weight of a route, whatever the weights. */
  lemma {:induction false} ThroughAttained(n: int, roads: seq<seq<int>>, k: int, i: int, j: int) returns (p: seq<int>)
    requires 0 <= k <= n && 0 <= i < n && 0 <= j < n && Through(n, roads, k, i, j) != INF
    ensures Route(n, roads, p, i, j, k) && Weight(roads, p) == Through(n, roads, k, i, j)
    decreases k
  {
    if k == 0 {
      DirectAttained(n, roads, i, j);
      if Direct(n, roads, i, j) == (if i == j then 0 else INF) {
        p := [];
      } else {
        var r :| 0 <= r < |roads| && Accepted(n, roads[r]) && roads[r][0] == i && roads[r][1] == j && roads[r][2] == Direct(n, roads, i, j);
        p := [r];
        assert p[..0] == [];
      }
    } else {
      var a, b, c := Through(n, roads, k - 1, i, k - 1), Through(n, roads, k - 1, k - 1, j), Through(n, roads, k - 1, i, j);
      if a != INF && b != INF && a + b < c {
        var p1 := ThroughAttained(n, roads, k - 1, i, k - 1);
        var p2 := ThroughAttained(n, roads, k - 1, k - 1, j);
        RouteWiden(n, roads, p1, i, k - 1, k - 1);
        RouteWiden(n, roads, p2, k - 1, j, k - 1);
        RouteAppend(n, roads, p1, p2, i, k - 1, j, k);
        WeightAppend(roads, p1, p2);
        p := p1 + p2;
      } else {
        p := ThroughAttained(n, roads, k - 1, i, j);
        RouteWiden(n, roads, p, i, j, k - 1);
      }
    }
  }

  lemma RouteWiden(n: int, roads: seq<seq<int>>, p: seq<int>, i: int, j: int, k: int)
    requires Route(n, roads, p, i, j, k)
    ensures Route(n, roads, p, i, j, k + 1)
  {
  }

  /**
   * Round k-1 brings (i, j) down to at most any bound on the two legs
   * through k-1 (the second leg bounded after that round, which leaves it alone).
   */
  lemma Detour(n: int, roads: seq<seq<int>>, k: int, i: int, j: int, x: int, y: int)
    requires NonNegative(n, roads) && 1 <= k <= n && 0 <= i < n && 0 <= j < n && x >= 0 && y >= 0
    requires Through(n, roads, k - 1, i, k - 1) <= x && Through(n, roads, k, k - 1, j) <= y
    ensures Through(n, roads, k, i, j) <= x + y
  {
    CrossStable(n, roads, k, j);
    ThroughBound(n, roads, k, i, j);
  }

  /** With no negative road every entry is at most the weight of every route it covers. */
  lemma {:induction false} ThroughLeast(n: int, roads: seq<seq<int>>, k: int, i: int, j: int, p: seq<int>)
    requires NonNegative(n, roads) && 0 <= k <= n && 0 <= i < n && 0 <= j < n && Route(n, roads, p, i, j, k)
    ensures Through(n, roads, k, i, j) <= Weight(roads, p)
    decreases k, |p|, 1
  {
    if k == 0 {
      if |p| == 1 {
        DirectLeast(n, roads, p[0], i, j);
        assert p[..0] == [];
      } else {
        assert |p| == 0;
        DirectBound(n, roads, i, j);
      }
    } else if t0 :| 0 <= t0 < |p| - 1 && roads[p[t0]][1] == k - 1 {
      LeastVia(n, roads, k, i, j, p, t0);
    } else {
      RouteNarrow(n, roads, p, i, j, k);
      ThroughLeast(n, roads, k - 1, i, j, p);
    }
  }

  /** The case of ThroughLeast where the route stops at k-1: split it there. */
  lemma {:induction false} LeastVia(n: int, roads: seq<seq<int>>, k: int, i: int, j: int, p: seq<int>, t0: int)
    requires NonNegative(n, roads) && 1 <= k <= n && 0 <= i < n && 0 <= j < n && Route(n, roads, p, i, j, k)
    requires 0 <= t0 < |p| - 1 && roads[p[t0]][1] == k - 1
    ensures Through(n, roads, k, i, j) <= Weight(roads, p)
    decreases k, |p|, 0
  {
    var t := RouteSplit(n, roads, p, i, j, k, t0);
    var p1, p2 := p[..t + 1], p[t + 1..];
    ThroughLeast(n, roads, k - 1, i, k - 1, p1);
    ThroughLeast(n, roads, k, k - 1, j, p2);
    WeightAppend(roads, p1, p2);
    WeightNonNegative(n, roads, p1);
    WeightNonNegative(n, roads, p2);
    Detour(n, roads, k, i, j, Weight(roads, p1), Weight(roads, p2));
  }

  /**
   * What the code reports for i and j, when no road is negative: the least
   * weight of a route from i to j, or INF when every route weighs INF or more
   * (in particular when there is none).
   */
  lemma ShortestRoute(n: int, roads: seq<seq<int>>, i: int, j: int)
    requires NonNegative(n, roads) && 0 <= i < n && 0 <= j < n
    ensures forall p :: Route(n, roads, p, i, j, n) ==> Shortest(n, roads, i, j) <= Weight(roads, p)
    ensures Shortest(n, roads, i, j) <= INF
    ensures Shortest(n, roads, i, j) != INF ==>
      exists p :: Route(n, roads, p, i, j, n) && Weight(roads, p) == Shortest(n, roads, i, j)
  {
    forall p | Route(n, roads, p, i, j, n)
      ensures Shortest(n, roads, i, j) <= Weight(roads, p)
    {
      ThroughLeast(n, roads, n, i, j, p);
    }
    ThroughBound(n, roads, n, i, j);
    if Shortest(n, roads, i, j) != INF {
      var p := ThroughAttained(n, roads, n, i, j);
    }
  }

  // The sum and its binary rendering.

  /** What a pair adds to the sum: its distance, or nothing when it is INF. */
  function Counted(d: int): int {
    if d != INF then d else 0
  }

  /** The distances from i to i+1, ..., j-1 that count. */
  function RowSum(n: int, roads: seq<seq<int>>, i: int, j: int): int
    requires 0 <= i < n && j <= n
    decreases j
  {
    if j <= i + 1 then 0 else RowSum(n, roads, i, j - 1) + Counted(Shortest(n, roads, i, j - 1))
  }

  /** The distances that count over the pairs i' < j' with i' below i. */
  function PairSum(n: int, roads: seq<seq<int>>, i: int): int
    requires 0 <= i <= n
  {
    if i == 0 then 0 else PairSum(n, roads, i - 1) + RowSum(n, roads, i - 1, n)
  }

  /** The sum over all pairs i < j of the distances below INF. */
  function Total(n: int, roads: seq<seq<int>>): int
    requires n >= 0
  {
    PairSum(n, roads, n)
  }

  /** The bits of t, least significant first, as pushed by the conversion loop. */
  function Bits(t: int): string
    decreases if t > 0 then t else 0
  {
    if t <= 0 then [] else [if t % 2 == 1 then '1' else '0'] + Bits(t / 2)
  }

  /** std::reverse. */
  function Reversed(s: string): (r: string)
    ensures |r| == |s| && forall i :: 0 <= i < |s| ==> r[i] == s[|s| - 1 - i]
  {
    if s == [] then [] else Reversed(s[1..]) + [s[0]]
  }

  /** The string the code returns for a total t. */
  function Render(t: int): string {
    if t == 0 then "0" else Reversed(Bits(t))
  }

  predicate Binary(s: string) {
    forall i :: 0 <= i < |s| ==> s[i] == '0' || s[i] == '1'
  }

  /** The number a string of binary digits denotes, most significant first. */
  function Value(s: string): int {
    if s == [] then 0 else 2 * Value(s[..|s| - 1]) + (if s[|s| - 1] == '1' then 1 else 0)
  }

  /** Bits(t) is made of binary digits and, for t > 0, ends in the leading 1. */
  lemma {:induction false} BitsShape(t: int)
    ensures Binary(Bits(t))
    ensures t > 0 ==> |Bits(t)| > 0 && Bits(t)[|Bits(t)| - 1] == '1'
    decreases if t > 0 then t else 0
  {
    if t > 0 {
      BitsShape(t / 2);
    }
  }

  lemma ValueSnoc(s: string, c: char)
    ensures Value(s + [c]) == 2 * Value(s) + (if c == '1' then 1 else 0)
  {
    assert (s + [c])[..|s|] == s;
  }

  lemma Halves(t: int)
    ensures 2 * (t / 2) + (if t % 2 == 1 then 1 else 0) == t
  {
  }

  /** Read most significant digit first, the reversed bits of t give t back. */
  lemma {:induction false} BitsValue(t: int)
    requires t >= 0
    ensures Value(Reversed(Bits(t))) == t
    decreases t
  {
    if t > 0 {
      var c := if t % 2 == 1 then '1' else '0';
      var h := t / 2;
      BitsValue(h);
      assert Bits(t) == [c] + Bits(h);
      assert Reversed(Bits(t)) == Reversed(Bits(h)) + [c] by {
        assert Bits(t)[1..] == Bits(h);
      }
      ValueSnoc(Reversed(Bits(h)), c);
      Halves(t);
    }
  }

  /**
   * The binary string of a total: "0" for 0; for t > 0 binary digits with a
   * leading 1 that denote t; empty for a negative total, as the loop never runs.
   */
  lemma RenderValue(t: int)
    ensures t == 0 ==> Render(t) == "0"
    ensures t < 0 ==> Render(t) == ""
    ensures Binary(Render(t))
    ensures t > 0 ==> |Render(t)| > 0 && Render(t)[0] == '1' && Value(Render(t)) == t
  {
    BitsShape(t);
    if t > 0 {
      BitsValue(t);
    }
  }

  // The matrix.

  predicate Square(d: seq<seq<int>>, n: int) {
    |d| == n && forall i :: 0 <= i < n ==> |d[i]| == n
  }

  /** vector<long long>(m, v). */
  function Row(m: nat, v: int): (r: seq<int>)
    ensures |r| == m && forall j :: 0 <= j < m ==> r[j] == v
  {
    if m == 0 then [] else Row(m - 1, v) + [v]
  }

  /** n rows of vector<long long>(n, v). */
  function Grid(rows: nat, n: nat, v: int): (d: seq<seq<int>>)
    ensures |d| == rows && forall i :: 0 <= i < rows ==> d[i] == Row(n, v)
  {
    if rows == 0 then [] else Grid(rows - 1, n, v) + [Row(n, v)]
  }

  /** Reading one more road changes only the entry it leads along. */
  lemma DirectNext(n: int, roads: seq<seq<int>>, idx: int, i: int, j: int)
    requires 0 <= idx < |roads|
    ensures Direct(n, roads[..idx + 1], i, j) ==
      if Accepted(n, roads[idx]) && roads[idx][0] == i && roads[idx][1] == j then Min(Direct(n, roads[..idx], i, j), roads[idx][2])
      else Direct(n, roads[..idx], i, j)
  {
    assert roads[..idx + 1][..idx] == roads[..idx];
  }

  /** The matrix holds the entries after round k. */
  ghost predicate AtRound(n: int, roads: seq<seq<int>>, d: seq<seq<int>>, k: int)
    requires 0 <= k <= n
  {
    Square(d, n) && forall a, b :: 0 <= a < n && 0 <= b < n ==> d[a][b] == Through(n, roads, k, a, b)
  }

  /**
   * Halfway through round k: the entries before (i, j) in row-major order
   * hold their value after the round, the rest their value before it.
   */
  ghost predicate Stage(n: int, roads: seq<seq<int>>, d: seq<seq<int>>, k: int, i: int, j: int)
    requires 0 <= k < n
  {
    Square(d, n) &&
    forall a, b :: 0 <= a < n && 0 <= b < n ==>
      d[a][b] == Through(n, roads, if a < i || (a == i && b < j) then k + 1 else k, a, b)
  }

  /**
   * One step of round k at (i, j), when no road is negative: the matrix holds
   * the round's inputs for (i, j), and writing the relaxed value moves on.
   */
  lemma StageStep(n: int, roads: seq<seq<int>>, d: seq<seq<int>>, k: int, i: int, j: int)
    requires NonNegative(n, roads) && 0 <= k < n && 0 <= i < n && 0 <= j < n && Stage(n, roads, d, k, i, j)
    ensures d[i][k] == Through(n, roads, k, i, k) && d[k][j] == Through(n, roads, k, k, j) && d[i][j] == Through(n, roads, k, i, j)
    ensures Through(n, roads, k + 1, i, j) ==
      if d[i][k] != INF && d[k][j] != INF && d[i][k] + d[k][j] < d[i][j] then d[i][k] + d[k][j] else d[i][j]
    ensures Stage(n, roads, d[i := d[i][j := Through(n, roads, k + 1, i, j)]], k, i, j + 1)
  {
    CrossStable(n, roads, k + 1, i);
    CrossStable(n, roads, k + 1, j);
    var d' := d[i := d[i][j := Through(n, roads, k + 1, i, j)]];
    forall a, b | 0 <= a < n && 0 <= b < n
      ensures d'[a][b] == Through(n, roads, if a < i || (a == i && b < j + 1) then k + 1 else k, a, b)
    {
      if a == i && b == j {
      }
    }
  }

  /** A row whose leg to k is INF is left alone by round k. */
  lemma RowSkip(n: int, roads: seq<seq<int>>, d: seq<seq<int>>, k: int, i: int)
    requires 0 <= k < n && 0 <= i < n && Stage(n, roads, d, k, i, 0) && d[i][k] == INF
    ensures Stage(n, roads, d, k, i + 1, 0)
  {
    assert Through(n, roads, k, i, k) == INF;
  }

  /** The matrix before the first round: 0 on the diagonal, then the cheapest direct road. */
  method InitialDistances(n: int, roads: seq<seq<int>>) returns (dist: seq<seq<int>>)
    requires n > 0
    ensures AtRound(n, roads, dist, 0)
  {
    dist := Grid(n, n, INF);
    for i := 0 to n
      invariant Square(dist, n)
      invariant forall a, b :: 0 <= a < n && 0 <= b < n ==> dist[a][b] == if a == b && a < i then 0 else INF
    {
      dist := dist[i := dist[i][i := 0]];
    }
    for idx := 0 to |roads|
      invariant Square(dist, n)
      invariant forall a, b :: 0 <= a < n && 0 <= b < n ==> dist[a][b] == Direct(n, roads[..idx], a, b)
    {
      forall a, b | 0 <= a < n && 0 <= b < n {
        DirectNext(n, roads, idx, a, b);
      }
      var e := roads[idx];
      if |e| < 3 {
        continue;
      }
      var u, v, w := e[0], e[1], e[2];
      if u < 0 || u >= n || v < 0 || v >= n {
        continue;
      }
      dist := dist[u := dist[u][v := Min(dist[u][v], w)]];
    }
    assert roads[..|roads|] == roads;
  }

  /** Row i of round k: relaxes every entry (i, j) through city k. */
  method RelaxRow(n: int, roads: seq<seq<int>>, dist: seq<seq<int>>, k: int, i: int) returns (dist': seq<seq<int>>)
    requires 0 <= k < n && 0 <= i < n && Square(dist, n)
    ensures Square(dist', n)
    ensures NonNegative(n, roads) && Stage(n, roads, dist, k, i, 0) ==> Stage(n, roads, dist', k, i + 1, 0)
  {
    ghost var nonneg := NonNegative(n, roads) && Stage(n, roads, dist, k, i, 0);
    dist' := dist;
    if dist'[i][k] == INF {
      if nonneg {
        RowSkip(n, roads, dist', k, i);
      }
      return;
    }
    for j := 0 to n
      invariant Square(dist', n)
      invariant nonneg ==> Stage(n, roads, dist', k, i, j)
    {
      if nonneg {
        StageStep(n, roads, dist', k, i, j);
      }
      if dist'[k][j] == INF {
        continue;
      }
      var newDist := dist'[i][k] + dist'[k][j];
      if newDist < dist'[i][j] {
        dist' := dist'[i := dist'[i][j := newDist]];
      }
    }
  }

  /** Round k of Floyd–Warshall: every pair may now pass through city k. */
  method Round(n: int, roads: seq<seq<int>>, dist: seq<seq<int>>, k: int) returns (dist': seq<seq<int>>)
    requires 0 <= k < n && Square(dist, n)
    ensures Square(dist', n)
    ensures NonNegative(n, roads) && AtRound(n, roads, dist, k) ==> AtRound(n, roads, dist', k + 1)
  {
    ghost var nonneg := NonNegative(n, roads) && AtRound(n, roads, dist, k);
    dist' := dist;
    for i := 0 to n
      invariant Square(dist', n)
      invariant nonneg ==> Stage(n, roads, dist', k, i, 0)
    {
      dist' := RelaxRow(n, roads, dist', k, i);
    }
  }

  /** The sum over the pairs i < j of the entries below INF. */
  method SumPairs(n: int, roads: seq<seq<int>>, dist: seq<seq<int>>) returns (total: int)
    requires n > 0 && Square(dist, n)
    ensures NonNegative(n, roads) && AtRound(n, roads, dist, n) ==> total == Total(n, roads)
  {
    ghost var done := NonNegative(n, roads) && AtRound(n, roads, dist, n);
    total := 0;
    for i := 0 to n
      invariant done ==> total == PairSum(n, roads, i)
    {
      for j := i + 1 to n
        invariant done ==> total == PairSum(n, roads, i) + RowSum(n, roads, i, j)
      {
        if dist[i][j] != INF {
          total := total + dist[i][j];
        }
      }
    }
  }

  /** The binary digits of a total other than 0, most significant first (none when it is negative). */
  method ToBinary(total: int) returns (r: string)
    requires total != 0
    ensures r == Render(total)
  {
    var binary := "";
    var value := total;
    while value > 0
      invariant Bits(total) == binary + Bits(value)
      decreases value
    {
      var bit := if value % 2 == 1 then '1' else '0';
      assert Bits(value) == [bit] + Bits(value / 2);
      assert binary + [bit] + Bits(value / 2) == binary + ([bit] + Bits(value / 2));
      binary := binary + [bit];
      value := value / 2;
    }
    r := Reversed(binary);
  }

  /**
   * sumMinDistancesBinary: Floyd–Warshall over the accepted roads, each
   * leading from its first city to its second, then the sum over pairs
   * i < j of the distances below INF, written in binary.
   */
  method SumMinDistancesBinary(n: int, roads: seq<seq<int>>) returns (r: string)
    ensures n <= 0 ==> r == "0"
    ensures Binary(r)
    ensures n > 0 && NonNegative(n, roads) ==> r == Render(Total(n, roads))
  {
    if n <= 0 {
      return "0";
    }
    var dist := InitialDistances(n, roads);
    ghost var nonneg := NonNegative(n, roads);
    for k := 0 to n
      invariant Square(dist, n)
      invariant nonneg ==> AtRound(n, roads, dist, k)
    {
      dist := Round(n, roads, dist, k);
    }
    var total := SumPairs(n, roads, dist);
    RenderValue(total);
    if total == 0 {
      return "0";
    }
    r := ToBinary(total);
  }

  // A worked example: roads 0 -> 1 of length 1 and 1 -> 2 of length 2 give
  // the distances 1, 3 and 2, whose sum 6 is written "110".

  function Line(): seq<seq<int>> {
    [[0, 1, 1], [1, 2, 2]]
  }

  lemma LineRound0()
    ensures Through(3, Line(), 0, 0, 0) == 0 &&
      Through(3, Line(), 0, 0, 1) == 1 &&
      Through(3, Line(), 0, 0, 2) == INF &&
      Through(3, Line(), 0, 1, 0) == INF &&
      Through(3, Line(), 0, 1, 1) == 0 &&
      Through(3, Line(), 0, 1, 2) == 2 &&
      Through(3, Line(), 0, 2, 0) == INF &&
      Through(3, Line(), 0, 2, 1) == INF &&
      Through(3, Line(), 0, 2, 2) == 0
  {
    assert Line()[..1] == [[0, 1, 1]] && Line()[..1][..0] == Line()[..0];
  }

  lemma LineRound1()
    ensures Through(3, Line(), 1, 0, 0) == 0 &&
      Through(3, Line(), 1, 0, 1) == 1 &&
      Through(3, Line(), 1, 0, 2) == INF &&
      Through(3, Line(), 1, 1, 0) == INF &&
      Through(3, Line(), 1, 1, 1) == 0 &&
      Through(3, Line(), 1, 1, 2) == 2 &&
      Through(3, Line(), 1, 2, 0) == INF &&
      Through(3, Line(), 1, 2, 1) == INF &&
      Through(3, Line(), 1, 2, 2) == 0
  {
    LineRound0();
  }

  lemma LineRound2()
    ensures Through(3, Line(), 2, 0, 0) == 0 &&
      Through(3, Line(), 2, 0, 1) == 1 &&
      Through(3, Line(), 2, 0, 2) == 3 &&
      Through(3, Line(), 2, 1, 0) == INF &&
      Through(3, Line(), 2, 1, 1) == 0 &&
      Through(3, Line(), 2, 1, 2) == 2 &&
      Through(3, Line(), 2, 2, 0) == INF &&
      Through(3, Line(), 2, 2, 1) == INF &&
      Through(3, Line(), 2, 2, 2) == 0
  {
    LineRound1();
  }

  lemma LineRound3()
    ensures Through(3, Line(), 3, 0, 0) == 0 &&
      Through(3, Line(), 3, 0, 1) == 1 &&
      Through(3, Line(), 3, 0, 2) == 3 &&
      Through(3, Line(), 3, 1, 0) == INF &&
      Through(3, Line(), 3, 1, 1) == 0 &&
      Through(3, Line(), 3, 1, 2) == 2 &&
      Through(3, Line(), 3, 2, 0) == INF &&
      Through(3, Line(), 3, 2, 1) == INF &&
      Through(3, Line(), 3, 2, 2) == 0
  {
    LineRound2();
  }

  lemma LineBinary()
    ensures Render(6) == "110"
  {
    assert Bits(6) == "011";
  }

  lemma LineShortest()
    ensures Shortest(3, Line(), 0, 1) == 1 && Shortest(3, Line(), 0, 2) == 3 && Shortest(3, Line(), 1, 2) == 2
  {
    LineRound3();
  }

  lemma LineTotal()
    ensures Total(3, Line()) == 6
  {
    LineShortest();
    assert RowSum(3, Line(), 0, 3) == 4;
    assert RowSum(3, Line(), 1, 3) == 2;
    assert RowSum(3, Line(), 2, 3) == 0;
  }

  lemma LineExample()
    ensures Render(Total(3, Line())) == "110"
  {
    LineTotal();
    LineBinary();
  }
}
