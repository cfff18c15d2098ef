/**
 * The Ford-Fulkerson solver with breadth-first path search (Edmonds-Karp),
 * as FordFulkerson.java runs it: the constructor repeats "search, take the
 * bottleneck, push it back along the path from the sink, rewrite the edge
 * list of every path vertex, add the bottleneck to maxFlow" until the
 * search no longer reaches the sink.
 *
 * The bottleneck is the minimum residual capacity over every entry of
 * edgeTo, that is over the whole search tree and not only over the path.
 * The graph builder gives each end of an input line its own Edge object;
 * after pushing flow through an edge the solver swaps it into the edge list
 * of the vertex it reached, in place of the first edge there whose
 * toString() starts with the same two characters.
 */
module MaxFlow {
  import opened Network

  /** Math.min. */
  function Min(a: int, b: int): int
  {
    if a <= b then a else b
  }

  /**
   * The position of the first edge of list whose toString() prefix is key,
   * or |list| when there is none.
   */
  function IndexOfPrefix(list: seq<Edge>, key: string): (i: nat)
    ensures i <= |list|
    ensures forall j | 0 <= j < i :: list[j].ToStringPrefix() != key
    ensures i < |list| ==> list[i].ToStringPrefix() == key
    decreases |list|
  {
    if list == [] then 0
    else if list[0].ToStringPrefix() == key then 0
    else 1 + IndexOfPrefix(list[1..], key)
  }

  /**
   * The edge list of a path vertex after the solver has dealt with it: the
   * first edge with the same toString() prefix as e is taken out and e is
   * appended.  The list keeps its length when such an edge was there and
   * grows by one otherwise; only an edge with e's prefix can disappear.
   */
  function Rewritten(list: seq<Edge>, e: Edge): (r: seq<Edge>)
    ensures |r| > 0 && r[|r| - 1] == e
    ensures |r| == if exists j | 0 <= j < |list| :: list[j].ToStringPrefix() == e.ToStringPrefix()
                   then |list| else |list| + 1
    ensures forall f | f in r :: f in list || f == e
    ensures forall f | f in list && f.ToStringPrefix() != e.ToStringPrefix() :: f in r
    decreases |list|
  {
    if list == [] then [e]
    else if list[0].ToStringPrefix() == e.ToStringPrefix() then list[1..] + [e]
    else
      var r := [list[0]] + Rewritten(list[1..], e);
      assert (exists j | 0 <= j < |list| :: list[j].ToStringPrefix() == e.ToStringPrefix()) ==>
             (exists j | 0 <= j < |list[1..]| :: list[1..][j].ToStringPrefix() == e.ToStringPrefix()) by {
        if exists j | 0 <= j < |list| :: list[j].ToStringPrefix() == e.ToStringPrefix() {
          var j :| 0 <= j < |list| && list[j].ToStringPrefix() == e.ToStringPrefix();
          assert list[1..][j - 1] == list[j];
        }
      }
      r
  }

  /** Cutting position i + 1 out of a list is cutting position i out of its tail. */
  lemma CutOfTail<T>(list: seq<T>, i: nat, x: T)
    requires list != [] && i <= |list| - 1
    ensures [list[0]] + ((if i < |list[1..]| then list[1..][..i] + list[1..][i + 1..] else list[1..]) + [x])
         == (if i + 1 < |list| then list[..i + 1] + list[i + 2..] else list) + [x]
  {
    if i < |list| - 1 {
      assert list[..i + 1] == [list[0]] + list[1..][..i];
      assert list[i + 2..] == list[1..][i + 1..];
    } else {
      assert list == [list[0]] + list[1..];
    }
  }

  /**
   * Rewritten is what the rewrite loop computes: cut the list at the first
   * prefix match, if any, and append e.
   */
  lemma {:induction false} RewrittenCutsAtFirstMatch(list: seq<Edge>, e: Edge)
    ensures var i := IndexOfPrefix(list, e.ToStringPrefix());
      Rewritten(list, e) == (if i < |list| then list[..i] + list[i + 1..] else list) + [e]
    decreases |list|
  {
    var key := e.ToStringPrefix();
    if list != [] && list[0].ToStringPrefix() != key {
      RewrittenCutsAtFirstMatch(list[1..], e);
      var i := IndexOfPrefix(list[1..], key);
      assert IndexOfPrefix(list, key) == i + 1;
      assert Rewritten(list, e) == [list[0]] + Rewritten(list[1..], e);
      CutOfTail(list, i, e);
    }
  }

  /**
   * The prefix match looks at the from name only: when the first edge of
   * the list starts at a vertex named like e's from end, that edge is the
   * one replaced, whatever its other end.
   */
  lemma RewriteMatchesFromNameOnly(list: seq<Edge>, e: Edge)
    requires |list| > 0 && list[0].v.name == e.v.name
    ensures Rewritten(list, e) == list[1..] + [e]
  {
  }

  /**
   * The inner loop of the augmenting walk: the position of the first edge in
   * the list of v whose toString() prefix is key, or the length of the list.
   */
  method FindPrefix(v: Vertex, key: string) returns (i: nat)
    ensures i == IndexOfPrefix(v.edgeList, key)
  {
    i := 0;
    while i < |v.GetEdgeList()| && v.GetEdgeList()[i].ToStringPrefix() != key
      invariant 0 <= i <= |v.edgeList|
      invariant forall j | 0 <= j < i :: v.edgeList[j].ToStringPrefix() != key
    {
      i := i + 1;
    }
    IndexOfPrefixIs(v.edgeList, key, i);
  }

  /** A position before which no edge has prefix key, and at which one has it or the list ends, is IndexOfPrefix. */
  lemma {:induction false} IndexOfPrefixIs(list: seq<Edge>, key: string, i: nat)
    requires i <= |list| && forall j | 0 <= j < i :: list[j].ToStringPrefix() != key
    requires i < |list| ==> list[i].ToStringPrefix() == key
    ensures i == IndexOfPrefix(list, key)
    decreases |list|
  {
    if list != [] && list[0].ToStringPrefix() != key {
      assert forall j | 0 <= j < i - 1 :: list[1..][j] == list[j + 1];
      IndexOfPrefixIs(list[1..], key, i - 1);
    }
  }

  /**
   * The edge-list rewrite of a path vertex v (the inner loop and the
   * addEdge call of the augmenting walk).
   */
  method ReplaceByPrefix(v: Vertex, e: Edge, ghost vertices: set<Vertex>, ghost es: seq<Edge>,
                         ghost lists: map<Vertex, seq<Edge>>, ghost flows: map<Edge, int>)
    requires v in vertices && Lists(vertices) == lists && FlowMap(es) == flows
    modifies v
    ensures v.edgeList == Rewritten(old(v.edgeList), e)
    ensures Lists(vertices) == lists[v := Rewritten(lists[v], e)]
    ensures FlowMap(es) == flows
  {
    var i := FindPrefix(v, e.ToStringPrefix());
    RewrittenCutsAtFirstMatch(v.edgeList, e);
    if i < |v.edgeList| {
      v.edgeList := v.edgeList[..i] + v.edgeList[i + 1..];
    }
    v.AddEdge(e);
    assert forall f | f in es :: f in flows && flows[f] == f.flow;
    FlowMapIs(es, flows);
    assert forall x | x in vertices && x != v :: lists[x] == x.edgeList;
    ListsButOne(vertices, v, lists);
  }

  /** What an edge carrying flow f contributes to the net flow out of s. */
  function OutOf(e: Edge, f: int, s: Vertex): int
  {
    if e.v == s then f else if e.w == s then -f else 0
  }

  /** The flow fm gives e, and 0 for an edge it does not know. */
  function FlowOf(fm: map<Edge, int>, e: Edge): int
  {
    if e in fm then fm[e] else 0
  }

  /** The net flow out of s when the edge objects es carry the flows fm. */
  ghost function NetOutOf(es: seq<Edge>, fm: map<Edge, int>, s: Vertex): int
    decreases |es|
  {
    if es == [] then 0 else OutOf(es[0], FlowOf(fm, es[0]), s) + NetOutOf(es[1..], fm, s)
  }

  /** The net flow out of s, summed over the edge objects es. */
  ghost function NetOut(es: seq<Edge>, s: Vertex): int
    reads es
  {
    NetOutOf(es, FlowMap(es), s)
  }

  /** The capacity of the edge objects of es that touch s. */
  ghost function CapOut(es: seq<Edge>, s: Vertex): int
    decreases |es|
  {
    if es == [] then 0
    else (if es[0].v == s || es[0].w == s then es[0].capacity else 0) + CapOut(es[1..], s)
  }

  /** While every flow lies within its capacity, the net flow out of s is bounded by CapOut. */
  lemma {:induction false} NetOutBounded(es: seq<Edge>, fm: map<Edge, int>, s: Vertex)
    requires forall k | 0 <= k < |es| :: 0 <= FlowOf(fm, es[k]) <= es[k].capacity
    ensures NetOutOf(es, fm, s) <= CapOut(es, s)
    decreases |es|
  {
    if es != [] {
      assert 0 <= FlowOf(fm, es[0]) <= es[0].capacity;
      NetOutBounded(es[1..], fm, s);
    }
  }
  /** In a consistent network the net flow out of s is bounded by CapOut. */
  lemma NetOutWithin(vertices: set<Vertex>, es: seq<Edge>, lists: map<Vertex, seq<Edge>>, flows: map<Edge, int>, s: Vertex)
    requires Consistent(vertices, es, lists, flows)
    ensures NetOutOf(es, flows, s) <= CapOut(es, s)
  {
    assert forall k | 0 <= k < |es| :: es[k] in es;
    NetOutBounded(es, flows, s);
  }


  /** The net flow through es does not depend on the flow of an edge outside es. */
  lemma {:induction false} NetOutOfIgnores(es: seq<Edge>, fm: map<Edge, int>, s: Vertex, e: Edge, f: int)
    requires e !in es
    ensures NetOutOf(es, fm[e := f], s) == NetOutOf(es, fm, s)
    decreases |es|
  {
    if es != [] {
      NetOutOfIgnores(es[1..], fm, s, e, f);
    }
  }

  /** Changing the flow of an edge that occurs once in es changes the net flow out of s by that edge's share. */
  lemma {:induction false} NetOutOfUpdate(es: seq<Edge>, fm: map<Edge, int>, s: Vertex, e: Edge, f: int)
    requires Distinct(es) && e in es
    ensures NetOutOf(es, fm[e := f], s) == NetOutOf(es, fm, s) + OutOf(e, f, s) - OutOf(e, FlowOf(fm, e), s)
    decreases |es|
  {
    DistinctTail(es);
    if es[0] == e {
      NetOutOfIgnores(es[1..], fm, s, e, f);
    } else {
      NetOutOfUpdate(es[1..], fm, s, e, f);
    }
  }

  /**
   * Every edge in the list of x that has residual capacity toward its other
   * end leads to a vertex of m.
   */
  ghost predicate Explored(x: Vertex, m: set<Vertex>)
    reads x, x.edgeList
  {
    forall j | 0 <= j < |x.edgeList| :: Reached(x.edgeList[j], x, m)
  }

  /** Scanning e from x enqueues the other end when the edge still has room toward it. */
  ghost predicate Reached(e: Edge, x: Vertex, m: set<Vertex>)
    reads e
  {
    e.GetResidualCapacity(e.GetOther(x)) > 0 ==> e.GetOther(x) in m
  }

  /** The edges listed by the vertices of xs. */
  ghost function EdgesOf(xs: set<Vertex>): set<Edge>
    reads xs
  {
    set x, j | x in xs && 0 <= j < |x.edgeList| :: x.edgeList[j]
  }

  /** Every vertex of done is explored with respect to m. */
  ghost predicate AllExplored(done: set<Vertex>, m: set<Vertex>)
    reads done, EdgesOf(done)
  {
    forall x | x in done :: Explored(x, m)
  }

  /** Some edge in the list of x has residual capacity toward y and leads to y. */
  ghost predicate ResidualStep(x: Vertex, y: Vertex)
    reads x, x.edgeList
  {
    exists j | 0 <= j < |x.edgeList| :: x.edgeList[j].GetOther(x) == y && x.edgeList[j].GetResidualCapacity(y) > 0
  }

  /** A path of the residual graph the search sees: every step is a ResidualStep. */
  ghost predicate ResidualPath(p: seq<Vertex>)
    reads set k | 0 <= k < |p| :: p[k]
    reads set k, j | 0 <= k < |p| && 0 <= j < |p[k].edgeList| :: p[k].edgeList[j]
  {
    forall k | 0 <= k < |p| - 1 :: ResidualStep(p[k], p[k + 1])
  }

  /** A residual path that starts in a set whose vertices are all explored against it never leaves the set. */
  lemma {:induction false} ClosedTrapsPath(m: set<Vertex>, p: seq<Vertex>)
    requires AllExplored(m, m) && p != [] && p[0] in m && ResidualPath(p)
    ensures forall k | 0 <= k < |p| :: p[k] in m
    decreases |p|
  {
    if |p| > 1 {
      assert ResidualStep(p[0], p[1]);
      var j :| 0 <= j < |p[0].edgeList| && p[0].edgeList[j].GetOther(p[0]) == p[1] &&
               p[0].edgeList[j].GetResidualCapacity(p[1]) > 0;
      assert Reached(p[0].edgeList[j], p[0], m);
      assert forall k | 0 <= k < |p| - 1 :: p[1..][k] == p[k + 1];
      ClosedTrapsPath(m, p[1..]);
      assert forall k | 1 <= k < |p| :: p[k] == p[1..][k - 1];
    }
  }

  /**
   * Marking more vertices keeps explored vertices explored, and a vertex
   * whose whole list has been scanned joins them.
   */
  lemma ExploredGrows(done: set<Vertex>, current: Vertex, m: set<Vertex>, m': set<Vertex>)
    requires AllExplored(done, m) && m <= m' && Explored(current, m')
    ensures AllExplored(done + {current}, m')
  {
  }

  /** A subset of explored vertices is explored. */
  lemma ExploredSubset(done: set<Vertex>, xs: set<Vertex>, m: set<Vertex>)
    requires AllExplored(done, m) && xs <= done
    ensures AllExplored(xs, m)
  {
  }

  /** The edges a vertex of a well-formed network lists are network edges ending at it. */
  lemma ListInNetwork(vertices: set<Vertex>, es: seq<Edge>, x: Vertex)
    requires Wellformed(vertices, es) && x in vertices
    ensures forall j | 0 <= j < |x.edgeList| ::
      x.edgeList[j] in es && x.edgeList[j].v in vertices && x.edgeList[j].w in vertices &&
      (x.edgeList[j].v == x || x.edgeList[j].w == x)
  {
    forall j | 0 <= j < |x.edgeList|
      ensures x.edgeList[j] in es
    {
      assert x.edgeList[j] in x.edgeList;
    }
  }

  /**
   * Entering other through edge, from the marked vertex current, keeps the
   * search tree a tree and other's rank the largest.
   */
  lemma TreeGrows(s: Vertex, seen: set<Vertex>, tree: map<Vertex, Edge>, rank: map<Vertex, nat>,
                  current: Vertex, edge: Edge, other: Vertex)
    requires IsTree(s, seen, tree, rank)
    requires forall x | x in seen :: rank[x] < |seen|
    requires current in seen && other !in seen
    requires edge.Joins(current, other) && edge.GetOther(other) == current
    ensures IsTree(s, seen + {other}, tree[other := edge], rank[other := |seen|])
    ensures forall x | x in seen + {other} :: rank[other := |seen|][x] < |seen + {other}|
  {
    assert |seen + {other}| == |seen| + 1;
  }

  /**
   * The queue holds marked vertices only, and every marked vertex has been
   * polled (is in done) or is still queued.
   */
  ghost predicate Frontier(queue: seq<Vertex>, seen: set<Vertex>, done: set<Vertex>)
  {
    (forall k | 0 <= k < |queue| :: queue[k] in seen) &&
    (forall x | x in seen :: x in done || x in queue)
  }

  /**
   * One round of the search keeps the queue inside the marked set and every
   * marked vertex either polled or still queued: the polled head joins done,
   * the rest of the queue stays in front and the newly marked vertices are
   * queued behind it.
   */
  lemma QueueStep(queue0: seq<Vertex>, queue: seq<Vertex>, seen0: set<Vertex>, seen: set<Vertex>, done: set<Vertex>)
    requires queue0 != [] && seen0 <= seen
    requires Frontier(queue0, seen0, done)
    requires |queue0| - 1 <= |queue| && queue[..|queue0| - 1] == queue0[1..]
    requires forall k | |queue0| - 1 <= k < |queue| :: queue[k] in seen - seen0
    requires forall x | x in seen - seen0 :: x in queue
    ensures Frontier(queue, seen, done + {queue0[0]})
  {
    forall k | 0 <= k < |queue0| - 1
      ensures queue[k] == queue0[k + 1]
    {
      assert queue[k] == queue[..|queue0| - 1][k];
    }
    forall x | x in seen0 && x !in done && x != queue0[0]
      ensures x in queue
    {
      var k :| 0 <= k < |queue0| && queue0[k] == x;
      assert queue[k - 1] == x;
    }
  }

  /** Marking more vertices keeps the scanned edges of x reached. */
  lemma ReachedGrows(edges: seq<Edge>, i: nat, x: Vertex, m: set<Vertex>, m': set<Vertex>)
    requires i <= |edges|
    requires forall j | 0 <= j < i :: Reached(edges[j], x, m)
    requires m <= m'
    ensures forall j | 0 <= j < i :: Reached(edges[j], x, m')
  {
  }

  /** A subset is no larger than its superset. */
  lemma {:induction false} SubsetCardinality<T>(a: set<T>, b: set<T>)
    requires a <= b
    ensures |a| <= |b|
    decreases a
  {
    if a != {} {
      var x :| x in a;
      SubsetCardinality(a - {x}, b - {x});
    }
  }

  /**
   * A search tree rooted at s: every marked vertex but s has an entry, the
   * entry's edge joins it to the vertex getOther leads to, which was marked
   * before it, and no edge serves two vertices.
   */
  ghost predicate IsTree(s: Vertex, marked: set<Vertex>, edgeTo: map<Vertex, Edge>, order: map<Vertex, nat>)
  {
    s in marked && s !in edgeTo &&
    (forall x | x in marked :: x in order && (x == s || x in edgeTo)) &&
    (forall x | x in edgeTo :: x in marked) &&
    (forall x {:trigger edgeTo[x]} | x in edgeTo ::
       var p := edgeTo[x].GetOther(x);
       edgeTo[x].Joins(x, p) && x != p && p in marked && order[p] < order[x]) &&
    (forall x, y | x in edgeTo && y in edgeTo && x != y :: edgeTo[x] != edgeTo[y])
  }

  /**
   * What the search keeps while it runs: tree is a search tree over seen,
   * inside the network, whose edges all have residual capacity toward the
   * vertex they lead to, and the newest vertex has the largest rank.
   */
  ghost predicate Searching(s: Vertex, vertices: set<Vertex>, es: seq<Edge>,
                            seen: set<Vertex>, tree: map<Vertex, Edge>, rank: map<Vertex, nat>)
    reads tree.Values, set x | x in tree :: tree[x].GetOther(x)
  {
    IsTree(s, seen, tree, rank) && seen <= vertices &&
    (forall x {:trigger tree[x]} | x in tree :: tree[x] in es && tree[x].GetResidualCapacity(x) > 0) &&
    Recorded(tree) &&
    (forall x | x in seen :: rank[x] < |seen|)
  }

  /**
   * Each entry of tree was found while scanning the list of the vertex it
   * leads back to: the edge is in that vertex's list and getOther leads from
   * that vertex to the entry's vertex.
   */
  ghost predicate Recorded(tree: map<Vertex, Edge>)
    reads set x | x in tree :: tree[x].GetOther(x)
  {
    forall x {:trigger tree[x]} | x in tree ::
      tree[x] in tree[x].GetOther(x).edgeList && tree[x].GetOther(tree[x].GetOther(x)) == x
  }

  /**
   * Recording, for the end other of the i-th edge of current, that edge keeps
   * every entry recorded.
   */
  lemma RecordedGrows(tree: map<Vertex, Edge>, current: Vertex, i: nat, other: Vertex)
    requires Recorded(tree) && i < |current.edgeList|
    requires other == current.edgeList[i].GetOther(current) && current.edgeList[i].GetOther(other) == current
    ensures Recorded(tree[other := current.edgeList[i]])
  {
    var t' := tree[other := current.edgeList[i]];
    forall x {:trigger t'[x]} | x in t'
      ensures t'[x] in t'[x].GetOther(x).edgeList && t'[x].GetOther(t'[x].GetOther(x)) == x
    {
      if x != other {
        assert t'[x] == tree[x];
      }
    }
  }

  /** p is a residual path from a to b. */
  ghost predicate Reaches(p: seq<Vertex>, a: Vertex, b: Vertex)
    reads set k | 0 <= k < |p| :: p[k]
    reads set k, j | 0 <= k < |p| && 0 <= j < |p[k].edgeList| :: p[k].edgeList[j]
  {
    p != [] && p[0] == a && p[|p| - 1] == b && ResidualPath(p)
  }

  /**
   * Every vertex of a recorded search tree whose entries all have residual
   * capacity is reached from the root by a residual path: the tree path.
   */
  lemma {:induction false} TreeReaches(s: Vertex, seen: set<Vertex>, tree: map<Vertex, Edge>, rank: map<Vertex, nat>, x: Vertex)
    returns (p: seq<Vertex>)
    requires IsTree(s, seen, tree, rank) && Recorded(tree) && x in seen
    requires forall y {:trigger tree[y]} | y in tree :: tree[y].GetResidualCapacity(y) > 0
    ensures Reaches(p, s, x)
    decreases rank[x]
  {
    if x == s {
      p := [s];
    } else {
      var q := tree[x].GetOther(x);
      var p' := TreeReaches(s, seen, tree, rank, q);
      p := p' + [x];
      var j :| 0 <= j < |q.edgeList| && q.edgeList[j] == tree[x];
      assert ResidualStep(q, x);
      forall k | 0 <= k < |p| - 1
        ensures ResidualStep(p[k], p[k + 1])
      {
        if k < |p'| - 1 {
          assert ResidualStep(p'[k], p'[k + 1]);
          assert p[k] == p'[k] && p[k + 1] == p'[k + 1];
        } else {
          assert p[k] == q && p[k + 1] == x;
        }
      }
    }
  }

  /**
   * Entering other through the i-th edge of current, which has residual
   * capacity toward it, keeps the search state a search state.
   */
  lemma SearchingGrows(s: Vertex, vertices: set<Vertex>, es: seq<Edge>,
                       seen: set<Vertex>, tree: map<Vertex, Edge>, rank: map<Vertex, nat>,
                       current: Vertex, i: nat, other: Vertex)
    requires Wellformed(vertices, es) && Searching(s, vertices, es, seen, tree, rank)
    requires current in seen && i < |current.edgeList| && other !in seen
    requires other == current.edgeList[i].GetOther(current) && current.edgeList[i].GetResidualCapacity(other) > 0
    ensures Searching(s, vertices, es, seen + {other}, tree[other := current.edgeList[i]], rank[other := |seen|])
  {
    var edge := current.edgeList[i];
    ListInNetwork(vertices, es, current);
    GetOtherOfOther(vertices, edge, current);
    TreeGrows(s, seen, tree, rank, current, edge, other);
    RecordedGrows(tree, current, i, other);
  }

  /**
   * Recording the i-th edge for other, an end not yet marked, keeps the
   * entries found before the scan and records other with an edge of the
   * scanned list that leads to it from current.
   */
  lemma ScanRecords(tree: map<Vertex, Edge>, seen: set<Vertex>, tree1: map<Vertex, Edge>, seen1: set<Vertex>,
                    current: Vertex, edges: seq<Edge>, i: nat, other: Vertex)
    requires forall x | x in tree1 :: x in seen1
    requires forall x | x in tree :: x in tree1 && tree1[x] == tree[x]
    requires forall x | x in seen1 - seen :: x in tree1 && tree1[x] in edges && tree1[x].GetOther(current) == x
    requires other !in seen1 && i < |edges| && other == edges[i].GetOther(current)
    ensures forall x | x in tree :: x in tree1[other := edges[i]] && tree1[other := edges[i]][x] == tree[x]
    ensures forall x | x in (seen1 + {other}) - seen ::
      x in tree1[other := edges[i]] && tree1[other := edges[i]][x] in edges && tree1[other := edges[i]][x].GetOther(current) == x
  {
  }

  /**
   * The loop of the search over the edge list of current: every edge with
   * residual capacity toward an end not yet seen records the edge for that
   * end, marks it and enqueues it.  Afterwards every edge of current is
   * reached, the first entries of the queue are the old ones, and every new
   * vertex is in the queue.
   */
  method ScanEdges(s: Vertex, current: Vertex, ghost vertices: set<Vertex>, ghost es: seq<Edge>,
                   seen: set<Vertex>, tree: map<Vertex, Edge>, ghost rank: map<Vertex, nat>, queue: seq<Vertex>)
    returns (seen': set<Vertex>, tree': map<Vertex, Edge>, ghost rank': map<Vertex, nat>, queue': seq<Vertex>)
    requires Wellformed(vertices, es) && current in seen
    requires Searching(s, vertices, es, seen, tree, rank)
    ensures Searching(s, vertices, es, seen', tree', rank')
    ensures seen <= seen' && Explored(current, seen')
    ensures forall x | x in tree :: x in tree' && tree'[x] == tree[x]
    ensures forall x | x in seen' - seen :: x in tree' && tree'[x] in current.edgeList && tree'[x].GetOther(current) == x
    ensures |queue| <= |queue'| && queue'[..|queue|] == queue
    ensures forall k | |queue| <= k < |queue'| :: queue'[k] in seen' - seen
    ensures forall x | x in seen' - seen :: x in queue'
    ensures |seen'| - |seen| == |queue'| - |queue|
  {
    seen', tree', rank', queue' := seen, tree, rank, queue;
    var edges := current.GetEdgeList();
    ListInNetwork(vertices, es, current);
    var i := 0;
    while i < |edges|
      invariant 0 <= i <= |edges|
      invariant Searching(s, vertices, es, seen', tree', rank') && seen <= seen'
      invariant forall x | x in tree :: x in tree' && tree'[x] == tree[x]
      invariant forall x | x in seen' - seen :: x in tree' && tree'[x] in edges && tree'[x].GetOther(current) == x
      invariant |queue| <= |queue'| && queue'[..|queue|] == queue
      invariant forall k | |queue| <= k < |queue'| :: queue'[k] in seen' - seen
      invariant forall x | x in seen' - seen :: x in queue'
      invariant forall j | 0 <= j < i :: Reached(edges[j], current, seen')
      invariant |seen'| - |seen| == |queue'| - |queue|
    {
      var edge := edges[i];
      var other := edge.GetOther(current);
      var residualCapacity := edge.GetResidualCapacity(other);
      ghost var seen1 := seen';
      if residualCapacity > 0 && other !in seen' {
        SearchingGrows(s, vertices, es, seen', tree', rank', current, i, other);
        ScanRecords(tree, seen, tree', seen', current, edges, i, other);
        tree' := tree'[other := edge];
        rank' := rank'[other := |seen'|];
        seen' := seen' + {other};
        queue' := queue' + [other];
      }
      assert Reached(edge, current, seen');
      ReachedGrows(edges, i, current, seen1, seen');
      i := i + 1;
    }
  }

  /**
   * The search of hasAugmentingPath, on values: s is queued and marked, then
   * while the queue is not empty and t is not marked, the head is polled and
   * its edges scanned.  A vertex is marked when it is enqueued.  When t is
   * not reached, every marked vertex has been polled and scanned.
   */
  method Search(s: Vertex, t: Vertex, ghost vertices: set<Vertex>, ghost es: seq<Edge>)
    returns (seen: set<Vertex>, tree: map<Vertex, Edge>, ghost rank: map<Vertex, nat>)
    requires Wellformed(vertices, es) && s in vertices && t in vertices
    ensures Searching(s, vertices, es, seen, tree, rank)
    ensures t !in seen ==> AllExplored(seen, seen)
  {
    tree := map[];
    seen := {};
    var queue := [s];
    seen := seen + {s};
    rank := map[s := 0];
    ghost var done: set<Vertex> := {};
    while queue != [] && t !in seen
      invariant Searching(s, vertices, es, seen, tree, rank)
      invariant Frontier(queue, seen, done)
      invariant AllExplored(done, seen)
      invariant |seen| <= |vertices|
      decreases |vertices| - |seen|, |queue|
    {
      ghost var queue0, seen0 := queue, seen;
      var current := queue[0];
      queue := queue[1..];
      seen, tree, rank, queue := ScanEdges(s, current, vertices, es, seen, tree, rank, queue);
      ExploredGrows(done, current, seen0, seen);
      QueueStep(queue0, queue, seen0, seen, done);
      SubsetCardinality(seen, vertices);
      done := done + {current};
    }
    if t !in seen {
      assert seen <= done;
      ExploredSubset(done, seen, seen);
    }
  }

  /** The vertices of the path from x back to (but without) s along the entries of tree. */
  ghost function TreePath(s: Vertex, x: Vertex, seen: set<Vertex>, tree: map<Vertex, Edge>, rank: map<Vertex, nat>): (p: set<Vertex>)
    requires IsTree(s, seen, tree, rank) && x in seen
    ensures forall y | y in p :: y in tree && rank[y] <= rank[x]
    ensures x != s ==> x in p
    decreases rank[x]
  {
    if x == s then {} else {x} + TreePath(s, tree[x].GetOther(x), seen, tree, rank)
  }

  /**
   * The edge lists once the walk back from x to s along tree is done: each
   * vertex on the way has its list rewritten with its entry of tree.
   */
  ghost function ListsAfterWalk(lists: map<Vertex, seq<Edge>>, s: Vertex, x: Vertex,
                                seen: set<Vertex>, tree: map<Vertex, Edge>, rank: map<Vertex, nat>): map<Vertex, seq<Edge>>
    requires IsTree(s, seen, tree, rank) && x in seen
    decreases rank[x]
  {
    if x == s then lists
    else ListsAfterWalk(lists[x := Rewritten(if x in lists then lists[x] else [], tree[x])],
                        s, tree[x].GetOther(x), seen, tree, rank)
  }

  /**
   * The flows once the walk back from x to s along tree is done: each
   * vertex on the way has had m pushed toward it through its entry of tree.
   */
  ghost function FlowsAfterWalk(fm: map<Edge, int>, s: Vertex, x: Vertex,
                                seen: set<Vertex>, tree: map<Vertex, Edge>, rank: map<Vertex, nat>, m: int): map<Edge, int>
    requires IsTree(s, seen, tree, rank) && x in seen
    decreases rank[x]
  {
    if x == s then fm
    else FlowsAfterWalk(fm[tree[x] := FlowOf(fm, tree[x]) + Delta(tree[x], x, m)],
                        s, tree[x].GetOther(x), seen, tree, rank, m)
  }

  /**
   * After the walk back from x, a vertex on the path has its list rewritten
   * with its entry of tree, and every other list is as it was.
   */
  lemma {:induction false} ListsAfterWalkAt(lists: map<Vertex, seq<Edge>>, s: Vertex, x: Vertex,
                                            seen: set<Vertex>, tree: map<Vertex, Edge>, rank: map<Vertex, nat>, y: Vertex)
    requires IsTree(s, seen, tree, rank) && x in seen && y in lists
    ensures y in ListsAfterWalk(lists, s, x, seen, tree, rank)
    ensures ListsAfterWalk(lists, s, x, seen, tree, rank)[y] ==
            if y in TreePath(s, x, seen, tree, rank) then Rewritten(lists[y], tree[y]) else lists[y]
    decreases rank[x]
  {
    if x != s {
      var p := tree[x].GetOther(x);
      var next := lists[x := Rewritten(if x in lists then lists[x] else [], tree[x])];
      ListsAfterWalkAt(next, s, p, seen, tree, rank, y);
      assert TreePath(s, x, seen, tree, rank) == {x} + TreePath(s, p, seen, tree, rank);
    }
  }

  /**
   * After the walk back from x, the entry of tree for a vertex y on the path
   * has had m pushed toward y, so its residual capacity toward y is m lower.
   */
  lemma {:induction false} FlowsAfterWalkOnPath(fm: map<Edge, int>, s: Vertex, x: Vertex,
                                                seen: set<Vertex>, tree: map<Vertex, Edge>, rank: map<Vertex, nat>, m: int, y: Vertex)
    requires IsTree(s, seen, tree, rank) && x in seen && y in TreePath(s, x, seen, tree, rank)
    ensures FlowOf(FlowsAfterWalk(fm, s, x, seen, tree, rank, m), tree[y]) == FlowOf(fm, tree[y]) + Delta(tree[y], y, m)
    ensures Residual(tree[y], y, FlowOf(FlowsAfterWalk(fm, s, x, seen, tree, rank, m), tree[y]))
            == Residual(tree[y], y, FlowOf(fm, tree[y])) - m
    decreases rank[x]
  {
    var p := tree[x].GetOther(x);
    var next := fm[tree[x] := FlowOf(fm, tree[x]) + Delta(tree[x], x, m)];
    assert TreePath(s, x, seen, tree, rank) == {x} + TreePath(s, p, seen, tree, rank);
    if y == x {
      FlowsAfterWalkOffPath(next, s, p, seen, tree, rank, m, tree[x]);
    } else {
      FlowsAfterWalkOnPath(next, s, p, seen, tree, rank, m, y);
    }
  }

  /** After the walk back from x, an edge that is no path vertex's entry keeps its flow. */
  lemma {:induction false} FlowsAfterWalkOffPath(fm: map<Edge, int>, s: Vertex, x: Vertex,
                                                 seen: set<Vertex>, tree: map<Vertex, Edge>, rank: map<Vertex, nat>, m: int, e: Edge)
    requires IsTree(s, seen, tree, rank) && x in seen
    requires forall y | y in TreePath(s, x, seen, tree, rank) :: tree[y] != e
    ensures FlowOf(FlowsAfterWalk(fm, s, x, seen, tree, rank, m), e) == FlowOf(fm, e)
    decreases rank[x]
  {
    if x != s {
      var p := tree[x].GetOther(x);
      assert TreePath(s, x, seen, tree, rank) == {x} + TreePath(s, p, seen, tree, rank);
      FlowsAfterWalkOffPath(fm[tree[x] := FlowOf(fm, tree[x]) + Delta(tree[x], x, m)], s, p, seen, tree, rank, m, e);
    }
  }

  /**
   * Pushing m toward v through the edge e joining v to its parent p changes
   * the net flow out of s by m when p is s, and not at all otherwise.
   */
  lemma SourceOutflowStep(vertices: set<Vertex>, es: seq<Edge>, flows: map<Edge, int>, flows': map<Edge, int>,
                          e: Edge, v: Vertex, p: Vertex, s: Vertex, m: int, net0: int)
    requires UniqueNames(vertices) && Distinct(es) && e in es
    requires v in vertices && p in vertices && s in vertices
    requires e.Joins(v, p) && v != p && v != s
    requires flows' == flows[e := FlowOf(flows, e) + Delta(e, v, m)]
    requires NetOutOf(es, flows, s) == net0 + (if v == s then m else 0)
    ensures NetOutOf(es, flows', s) == net0 + (if p == s then m else 0)
  {
    NetOutOfUpdate(es, flows, s, e, FlowOf(flows, e) + Delta(e, v, m));
    EqualsIsIdentity(vertices, v, e.v);
  }

  /**
   * Pushing at most the residual capacity toward an end v of e, and
   * rewriting the list of v with e, keeps the network consistent.
   */
  lemma ConsistentStep(vertices: set<Vertex>, es: seq<Edge>, lists: map<Vertex, seq<Edge>>, flows: map<Edge, int>,
                       v: Vertex, e: Edge, m: int, lists': map<Vertex, seq<Edge>>, flows': map<Edge, int>)
    requires Consistent(vertices, es, lists, flows) && v in vertices && e in es && (e.v == v || e.w == v)
    requires 0 <= m <= Residual(e, v, FlowOf(flows, e))
    requires lists' == lists[v := Rewritten(lists[v], e)] && flows' == flows[e := FlowOf(flows, e) + Delta(e, v, m)]
    ensures Consistent(vertices, es, lists', flows')
  {
  }

  /** The tree the walk back from t follows: a search tree over vertices of the network, with edges of the network. */
  ghost predicate WalkTree(vertices: set<Vertex>, es: seq<Edge>, s: Vertex, t: Vertex,
                           seen: set<Vertex>, tree: map<Vertex, Edge>, rank: map<Vertex, nat>)
  {
    IsTree(s, seen, tree, rank) && t in seen && seen <= vertices &&
    (forall x {:trigger tree[x]} | x in tree :: tree[x] in es)
  }

  /**
   * What holds while the walk back is at v, with the edge lists and flows as
   * values: the network is consistent, what is left of the walk leads to
   * the same lists and flows as the whole walk from t, every tree edge not
   * yet used still has room for m toward its vertex, and the net flow out of
   * s has grown by m once s is reached.
   */
  ghost predicate Walking(vertices: set<Vertex>, es: seq<Edge>, s: Vertex, t: Vertex, m: int,
                          seen: set<Vertex>, tree: map<Vertex, Edge>, rank: map<Vertex, nat>,
                          lists0: map<Vertex, seq<Edge>>, flows0: map<Edge, int>, net0: int,
                          v: Vertex, lists: map<Vertex, seq<Edge>>, flows: map<Edge, int>)
  {
    WalkTree(vertices, es, s, t, seen, tree, rank) && v in seen && 0 <= m &&
    Consistent(vertices, es, lists, flows) &&
    ListsAfterWalk(lists, s, v, seen, tree, rank) == ListsAfterWalk(lists0, s, t, seen, tree, rank) &&
    FlowsAfterWalk(flows, s, v, seen, tree, rank, m) == FlowsAfterWalk(flows0, s, t, seen, tree, rank, m) &&
    (forall x {:trigger tree[x]} | x in tree && rank[x] <= rank[v] :: m <= Residual(tree[x], x, FlowOf(flows, tree[x]))) &&
    NetOutOf(es, flows, s) == net0 + (if v == s then m else 0)
  }

  /**
   * While the walk back is at v and has not reached s, the tree edge of v is
   * one of the network's, has v as an end and has room for m toward v.
   */
  lemma WalkingEdge(vertices: set<Vertex>, es: seq<Edge>, s: Vertex, t: Vertex, m: int,
                    seen: set<Vertex>, tree: map<Vertex, Edge>, rank: map<Vertex, nat>,
                    lists0: map<Vertex, seq<Edge>>, flows0: map<Edge, int>, net0: int,
                    v: Vertex, lists: map<Vertex, seq<Edge>>, flows: map<Edge, int>)
    requires Walking(vertices, es, s, t, m, seen, tree, rank, lists0, flows0, net0, v, lists, flows)
    requires v != s
    ensures v in tree && tree[v] in es && (tree[v].v == v || tree[v].w == v) && v in lists
    ensures m <= Residual(tree[v], v, FlowOf(flows, tree[v]))
  {
  }

  /**
   * One step of the walk back keeps the network part of what Walking
   * states: pushing m toward v through its tree edge and rewriting the list
   * of v keeps the network consistent and moves the walk on to the vertex p
   * the edge leads back to, with the same final lists and flows
   * (WalkingStepOutflow does the rest, WalkingIntro puts the parts together).
   */
  lemma {:induction false} WalkingStep(vertices: set<Vertex>, es: seq<Edge>, s: Vertex, t: Vertex, m: int,
                    seen: set<Vertex>, tree: map<Vertex, Edge>, rank: map<Vertex, nat>,
                    lists0: map<Vertex, seq<Edge>>, flows0: map<Edge, int>, net0: int,
                    v: Vertex, lists: map<Vertex, seq<Edge>>, flows: map<Edge, int>,
                    e: Edge, p: Vertex, lists': map<Vertex, seq<Edge>>, flows': map<Edge, int>)
    requires Walking(vertices, es, s, t, m, seen, tree, rank, lists0, flows0, net0, v, lists, flows)
    requires v != s && v in tree && v in lists && e == tree[v] && p == e.GetOther(v)
    requires lists' == lists[v := Rewritten(lists[v], e)]
    requires flows' == flows[e := FlowOf(flows, e) + Delta(e, v, m)]
    ensures WalkTree(vertices, es, s, t, seen, tree, rank) && p in seen && 0 <= m
    ensures Consistent(vertices, es, lists', flows')
    ensures ListsAfterWalk(lists', s, p, seen, tree, rank) == ListsAfterWalk(lists0, s, t, seen, tree, rank)
    ensures FlowsAfterWalk(flows', s, p, seen, tree, rank, m) == FlowsAfterWalk(flows0, s, t, seen, tree, rank, m)
  {
    ConsistentStep(vertices, es, lists, flows, v, e, m, lists', flows');
    ListsAfterWalkStep(lists0, lists, lists', s, t, v, p, seen, tree, rank);
    FlowsAfterWalkStep(flows0, flows, flows', s, t, v, p, seen, tree, rank, m);
  }

  /**
   * The other half of one step of the walk back: the tree edges of the
   * vertices ranked below v still have room for m toward their vertex, and
   * the net flow out of s has grown by m once the walk reaches s.
   */
  lemma {:induction false} WalkingStepOutflow(vertices: set<Vertex>, es: seq<Edge>, s: Vertex, t: Vertex, m: int,
                           seen: set<Vertex>, tree: map<Vertex, Edge>, rank: map<Vertex, nat>,
                           lists0: map<Vertex, seq<Edge>>, flows0: map<Edge, int>, net0: int,
                           v: Vertex, lists: map<Vertex, seq<Edge>>, flows: map<Edge, int>,
                           e: Edge, p: Vertex, flows': map<Edge, int>)
    requires Walking(vertices, es, s, t, m, seen, tree, rank, lists0, flows0, net0, v, lists, flows)
    requires v != s && v in tree && e == tree[v] && p == e.GetOther(v)
    requires flows' == flows[e := FlowOf(flows, e) + Delta(e, v, m)]
    ensures forall x {:trigger tree[x]} | x in tree && rank[x] <= rank[p] :: m <= Residual(tree[x], x, FlowOf(flows', tree[x]))
    ensures NetOutOf(es, flows', s) == net0 + (if p == s then m else 0)
  {
    assert e.Joins(v, p) && v != p && p in seen && rank[p] < rank[v];
    SourceOutflowStep(vertices, es, flows, flows', e, v, p, s, m, net0);
    ResidualsKept(s, seen, tree, rank, m, v, p, flows, flows');
  }

  /** The parts WalkingStep establishes are Walking at the next vertex. */
  lemma WalkingIntro(vertices: set<Vertex>, es: seq<Edge>, s: Vertex, t: Vertex, m: int,
                     seen: set<Vertex>, tree: map<Vertex, Edge>, rank: map<Vertex, nat>,
                     lists0: map<Vertex, seq<Edge>>, flows0: map<Edge, int>, net0: int,
                     p: Vertex, lists': map<Vertex, seq<Edge>>, flows': map<Edge, int>)
    requires WalkTree(vertices, es, s, t, seen, tree, rank) && p in seen && 0 <= m
    requires Consistent(vertices, es, lists', flows')
    requires ListsAfterWalk(lists', s, p, seen, tree, rank) == ListsAfterWalk(lists0, s, t, seen, tree, rank)
    requires FlowsAfterWalk(flows', s, p, seen, tree, rank, m) == FlowsAfterWalk(flows0, s, t, seen, tree, rank, m)
    requires forall x {:trigger tree[x]} | x in tree && rank[x] <= rank[p] :: m <= Residual(tree[x], x, FlowOf(flows', tree[x]))
    requires NetOutOf(es, flows', s) == net0 + (if p == s then m else 0)
    ensures Walking(vertices, es, s, t, m, seen, tree, rank, lists0, flows0, net0, p, lists', flows')
  {
  }

  /**
   * The walk back from v != s is its first step followed by the walk back
   * from p, the vertex the tree edge of v leads to.
   */
  lemma ListsAfterWalkStep(lists0: map<Vertex, seq<Edge>>, lists: map<Vertex, seq<Edge>>, lists': map<Vertex, seq<Edge>>,
                           s: Vertex, t: Vertex, v: Vertex, p: Vertex,
                           seen: set<Vertex>, tree: map<Vertex, Edge>, rank: map<Vertex, nat>)
    requires IsTree(s, seen, tree, rank) && t in seen && v in seen && v != s && v in lists
    requires p == tree[v].GetOther(v) && lists' == lists[v := Rewritten(lists[v], tree[v])]
    requires ListsAfterWalk(lists, s, v, seen, tree, rank) == ListsAfterWalk(lists0, s, t, seen, tree, rank)
    ensures p in seen
    ensures ListsAfterWalk(lists', s, p, seen, tree, rank) == ListsAfterWalk(lists0, s, t, seen, tree, rank)
  {
  }

  /**
   * The walk back from v != s is its first push followed by the walk back
   * from p, the vertex the tree edge of v leads to.
   */
  lemma FlowsAfterWalkStep(flows0: map<Edge, int>, flows: map<Edge, int>, flows': map<Edge, int>,
                           s: Vertex, t: Vertex, v: Vertex, p: Vertex,
                           seen: set<Vertex>, tree: map<Vertex, Edge>, rank: map<Vertex, nat>, m: int)
    requires IsTree(s, seen, tree, rank) && t in seen && v in seen && v != s
    requires p == tree[v].GetOther(v) && flows' == flows[tree[v] := FlowOf(flows, tree[v]) + Delta(tree[v], v, m)]
    requires FlowsAfterWalk(flows, s, v, seen, tree, rank, m) == FlowsAfterWalk(flows0, s, t, seen, tree, rank, m)
    ensures p in seen
    ensures FlowsAfterWalk(flows', s, p, seen, tree, rank, m) == FlowsAfterWalk(flows0, s, t, seen, tree, rank, m)
  {
  }

  /**
   * Changing the flow of the tree edge of v leaves the residual capacity of
   * the tree edges of all vertices ranked below v as it was.
   */
  lemma ResidualsKept(s: Vertex, seen: set<Vertex>, tree: map<Vertex, Edge>, rank: map<Vertex, nat>, m: int,
                      v: Vertex, p: Vertex, flows: map<Edge, int>, flows': map<Edge, int>)
    requires IsTree(s, seen, tree, rank) && v in tree && p in seen && rank[p] < rank[v]
    requires forall x {:trigger tree[x]} | x in tree && rank[x] <= rank[v] :: m <= Residual(tree[x], x, FlowOf(flows, tree[x]))
    requires flows' == flows[tree[v] := FlowOf(flows, tree[v]) + Delta(tree[v], v, m)]
    ensures forall x {:trigger tree[x]} | x in tree && rank[x] <= rank[p] :: m <= Residual(tree[x], x, FlowOf(flows', tree[x]))
  {
    forall x {:trigger tree[x]} | x in tree && rank[x] <= rank[p]
      ensures m <= Residual(tree[x], x, FlowOf(flows', tree[x]))
    {
      assert x != v;
    }
  }

  /**
   * The push of one step of the walk back: minValue more flow toward v
   * through edge.  Only the flow of edge changes, and the net flow out of s
   * changes by edge's share.
   */
  method PushFlow(v: Vertex, edge: Edge, minValue: int, s: Vertex, ghost vertices: set<Vertex>, ghost es: seq<Edge>,
                  ghost lists: map<Vertex, seq<Edge>>, ghost flows: map<Edge, int>)
    requires Distinct(es) && edge in es && 0 <= edge.flow <= edge.capacity
    requires 0 <= minValue <= edge.GetResidualCapacity(v)
    requires Lists(vertices) == lists && FlowMap(es) == flows
    modifies edge
    ensures 0 <= edge.flow <= edge.capacity
    ensures edge.flow == old(edge.flow) + Delta(edge, v, minValue)
    ensures Lists(vertices) == lists
    ensures FlowMap(es) == flows[edge := FlowOf(flows, edge) + Delta(edge, v, minValue)]
    ensures NetOut(es, s) == old(NetOut(es, s)) + OutOf(edge, edge.flow, s) - OutOf(edge, old(edge.flow), s)
  {
    edge.AddResidualFlowTo(v, minValue);
    ghost var flows' := flows[edge := edge.flow];
    assert forall f | f in es :: f in flows' && flows'[f] == f.flow;
    FlowMapIs(es, flows');
    assert forall x | x in vertices :: lists[x] == x.edgeList;
    ListsIs(vertices, lists);
    NetOutOfUpdate(es, flows, s, edge, edge.flow);
  }

  /**
   * One step of the walk back: push minValue toward v through edge, then
   * rewrite the edge list of v so that edge replaces the first entry with the
   * same from name.  With the edge lists and flows before the step given as
   * lists and flows, only the list of v and the flow of edge change.
   */
  method PushToward(v: Vertex, edge: Edge, minValue: int, s: Vertex, ghost vertices: set<Vertex>, ghost es: seq<Edge>,
                    ghost lists: map<Vertex, seq<Edge>>, ghost flows: map<Edge, int>)
    requires Consistent(vertices, es, lists, flows) && Lists(vertices) == lists && FlowMap(es) == flows
    requires v in vertices && edge in es && (edge.v == v || edge.w == v)
    requires 0 <= minValue <= edge.GetResidualCapacity(v)
    modifies v, edge
    ensures edge.flow == old(edge.flow) + Delta(edge, v, minValue)
    ensures Lists(vertices) == lists[v := Rewritten(lists[v], edge)]
    ensures FlowMap(es) == flows[edge := FlowOf(flows, edge) + Delta(edge, v, minValue)]
  {
    PushFlow(v, edge, minValue, s, vertices, es, lists, flows);
    ReplaceByPrefix(v, edge, vertices, es, lists, flows[edge := FlowOf(flows, edge) + Delta(edge, v, minValue)]);
  }

  /**
   * The walk back from t to s along tree: every path vertex v gets minValue
   * pushed toward it through tree[v] and has its edge list rewritten, and
   * nothing else changes (ListsAfterWalk, FlowsAfterWalk).  The network
   * stays well formed and the net flow out of s grows by exactly minValue.
   */
  method Augment(s: Vertex, t: Vertex, minValue: int, tree: map<Vertex, Edge>,
                 ghost seen: set<Vertex>, ghost rank: map<Vertex, nat>, ghost vertices: set<Vertex>, ghost es: seq<Edge>,
                 ghost lists0: map<Vertex, seq<Edge>>, ghost flows0: map<Edge, int>)
    requires Consistent(vertices, es, lists0, flows0) && Lists(vertices) == lists0 && FlowMap(es) == flows0
    requires WalkTree(vertices, es, s, t, seen, tree, rank) && s != t
    requires 0 <= minValue
    requires forall x {:trigger tree[x]} | x in tree :: minValue <= tree[x].GetResidualCapacity(x)
    modifies vertices, es
    ensures Lists(vertices) == ListsAfterWalk(lists0, s, t, seen, tree, rank)
    ensures FlowMap(es) == FlowsAfterWalk(flows0, s, t, seen, tree, rank, minValue)
    ensures Consistent(vertices, es, ListsAfterWalk(lists0, s, t, seen, tree, rank),
                       FlowsAfterWalk(flows0, s, t, seen, tree, rank, minValue))
    ensures NetOutOf(es, FlowsAfterWalk(flows0, s, t, seen, tree, rank, minValue), s) == NetOutOf(es, flows0, s) + minValue
  {
    ghost var net0 := NetOutOf(es, flows0, s);
    ghost var lists, flows := lists0, flows0;
    var v := t;
    while v != s
      invariant Lists(vertices) == lists && FlowMap(es) == flows
      invariant Walking(vertices, es, s, t, minValue, seen, tree, rank, lists0, flows0, net0, v, lists, flows)
      decreases rank[v]
    {
      var edge := tree[v];
      WalkingEdge(vertices, es, s, t, minValue, seen, tree, rank, lists0, flows0, net0, v, lists, flows);
      PushToward(v, edge, minValue, s, vertices, es, lists, flows);
      ghost var lists', flows' := lists[v := Rewritten(lists[v], edge)], flows[edge := FlowOf(flows, edge) + Delta(edge, v, minValue)];
      WalkingStep(vertices, es, s, t, minValue, seen, tree, rank, lists0, flows0, net0, v, lists, flows,
                  edge, edge.GetOther(v), lists', flows');
      WalkingStepOutflow(vertices, es, s, t, minValue, seen, tree, rank, lists0, flows0, net0, v, lists, flows,
                         edge, edge.GetOther(v), flows');
      WalkingIntro(vertices, es, s, t, minValue, seen, tree, rank, lists0, flows0, net0, edge.GetOther(v), lists', flows');
      lists, flows := lists', flows';
      v := edge.GetOther(v);
    }
  }

  class FordFulkerson {
    var marked: set<Vertex>
    var edgeTo: map<Vertex, Edge>
    var maxFlow: int
    /** The order in which the last search marked each vertex. */
    ghost var order: map<Vertex, nat>
    ghost const source: Vertex
    ghost const sink: Vertex

    /** edgeTo is a search tree rooted at s (see IsTree). */
    ghost predicate Tree(s: Vertex)
      reads this`marked, this`edgeTo, this`order
    {
      IsTree(s, marked, edgeTo, order)
    }

    /** The search only met the network's vertices and edges. */
    ghost predicate WithinNetwork(vertices: set<Vertex>, es: seq<Edge>)
      reads this`marked, this`edgeTo
    {
      marked <= vertices && forall x {:trigger edgeTo[x]} | x in edgeTo :: edgeTo[x] in es
    }

    /** The edges listed by the marked vertices. */
    ghost function ListedEdges(): set<Edge>
      reads this`marked, marked
    {
      EdgesOf(marked)
    }

    /** No residual edge leaves the marked set: it is the source side of a cut. */
    ghost predicate Closed()
      reads this`marked, marked, ListedEdges()
    {
      AllExplored(marked, marked)
    }

    /**
     * Every entry of edgeTo was recorded by scanning the list of the vertex
     * it leads back to, and has residual capacity toward its own vertex.
     */
    ghost predicate Found()
      reads this`edgeTo, edgeTo.Values, set x | x in edgeTo :: edgeTo[x].GetOther(x)
    {
      Recorded(edgeTo) && forall x {:trigger edgeTo[x]} | x in edgeTo :: edgeTo[x].GetResidualCapacity(x) > 0
    }

    /** The state the constructor leaves behind. */
    ghost predicate Valid()
      reads this, marked, ListedEdges(), edgeTo.Values
    {
      source != sink && Tree(source) && sink !in marked && maxFlow >= 0 && Closed() && Found()
    }

    /**
     * Runs the solver to completion.  Afterwards the sink is not reachable
     * through residual capacity, the marked set is closed under residual
     * edges, every flow still lies within its capacity, and maxFlow is the
     * net flow that left s over all edge objects.
     */
    constructor (s: Vertex, t: Vertex, ghost vertices: set<Vertex>, ghost es: seq<Edge>)
      requires Wellformed(vertices, es) && s in vertices && t in vertices && s != t
      modifies vertices, es
      ensures Wellformed(vertices, es)
      ensures source == s && sink == t && Valid()
      ensures maxFlow == NetOut(es, s) - old(NetOut(es, s))
    {
      ghost var lists, flows := Lists(vertices), FlowMap(es);
      ghost var net0 := NetOutOf(es, flows, s);
      marked := {};
      edgeTo := map[];
      maxFlow := 0;
      order := map[];
      source, sink := s, t;
      new;
      var found := HasAugmentingPath(s, t, vertices, es, lists, flows);
      while found
        invariant Consistent(vertices, es, lists, flows) && Lists(vertices) == lists && FlowMap(es) == flows
        invariant Tree(s) && WithinNetwork(vertices, es)
        invariant found <==> t in marked
        invariant Found()
        invariant !found ==> Closed()
        invariant maxFlow == NetOutOf(es, flows, s) - net0 && maxFlow >= 0
        decreases CapOut(es, s) - NetOutOf(es, flows, s)
      {
        NetOutWithin(vertices, es, lists, flows, s);
        var minValue;
        minValue, lists, flows := AugmentPath(s, t, vertices, es, lists, flows);
        NetOutWithin(vertices, es, lists, flows, s);
        found := HasAugmentingPath(s, t, vertices, es, lists, flows);
      }
    }

    /**
     * One round of the solver's loop after a successful search: take the
     * bottleneck minValue, add it to maxFlow and push it back along the path
     * from t (Augment).  Only maxFlow and the network change; the net flow
     * out of s grows by minValue, which is positive.
     */
    method AugmentPath(s: Vertex, t: Vertex, ghost vertices: set<Vertex>, ghost es: seq<Edge>,
                       ghost lists: map<Vertex, seq<Edge>>, ghost flows: map<Edge, int>)
      returns (minValue: int, ghost lists': map<Vertex, seq<Edge>>, ghost flows': map<Edge, int>)
      requires Consistent(vertices, es, lists, flows) && Lists(vertices) == lists && FlowMap(es) == flows
      requires Tree(s) && WithinNetwork(vertices, es) && t in marked && s != t
      requires forall x {:trigger edgeTo[x]} | x in edgeTo :: edgeTo[x].GetResidualCapacity(x) > 0
      modifies this`maxFlow, vertices, es
      ensures Consistent(vertices, es, lists', flows') && Lists(vertices) == lists' && FlowMap(es) == flows'
      ensures minValue > 0 && NetOutOf(es, flows', s) == NetOutOf(es, flows, s) + minValue
      ensures maxFlow == old(maxFlow) + minValue
      ensures lists' == ListsAfterWalk(lists, s, t, marked, edgeTo, order)
      ensures flows' == FlowsAfterWalk(flows, s, t, marked, edgeTo, order, minValue)
      ensures forall x {:trigger edgeTo[x]} | x in edgeTo :: minValue <= old(edgeTo[x].GetResidualCapacity(x))
      ensures minValue == MaxInt || exists x | x in edgeTo :: minValue == old(edgeTo[x].GetResidualCapacity(x))
    {
      minValue := Bottleneck();
      lists', flows' := ListsAfterWalk(lists, s, t, marked, edgeTo, order),
                        FlowsAfterWalk(flows, s, t, marked, edgeTo, order, minValue);
      maxFlow := maxFlow + minValue;
      Augment(s, t, minValue, edgeTo, marked, order, vertices, es, lists, flows);
    }

    /** isInCut: whether v is on the source side of the final cut. */
    function IsInCut(v: Vertex): (r: bool)
      reads this, marked, ListedEdges(), edgeTo.Values
      requires Valid()
      ensures v == source ==> r
      ensures v == sink ==> !r
      ensures r <==> v in marked
      ensures r ==> Explored(v, marked)
    {
      if v in marked then true else false
    }

    /**
     * The cut is what hasAugmentingPath promises about its marked set: a
     * vertex is in it exactly when a residual path leads to it from the
     * source.
     */
    lemma InCutIffReachable(v: Vertex)
      requires Valid()
      ensures IsInCut(v) <==> exists p :: Reaches(p, source, v)
    {
      if v in marked {
        var p := TreeReaches(source, marked, edgeTo, order, v);
      }
      if p :| Reaches(p, source, v) {
        ClosedTrapsPath(marked, p);
      }
    }

    /**
     * Once the solver is done, no residual path leads from the source to the
     * sink: there is no augmenting path left.
     */
    lemma NoAugmentingPath(p: seq<Vertex>)
      requires Valid() && p != [] && p[0] == source && ResidualPath(p)
      ensures sink !in p
    {
      ClosedTrapsPath(marked, p);
    }

    /** getMaxFlow: the accumulated flow, never negative. */
    function GetMaxFlow(): (r: int)
      reads this, marked, ListedEdges(), edgeTo.Values
      requires Valid()
      ensures r >= 0
    {
      maxFlow
    }

    /**
     * hasAugmentingPath: a breadth-first search from s over edges with
     * residual capacity toward the next vertex (see Search), whose marked set
     * and edgeTo map replace the previous ones.  It reports whether t is
     * marked.
     */
    method HasAugmentingPath(s: Vertex, t: Vertex, ghost vertices: set<Vertex>, ghost es: seq<Edge>,
                             ghost lists: map<Vertex, seq<Edge>>, ghost flows: map<Edge, int>)
      returns (found: bool)
      requires Consistent(vertices, es, lists, flows) && Lists(vertices) == lists && FlowMap(es) == flows
      requires s in vertices && t in vertices
      modifies this
      ensures Lists(vertices) == lists && FlowMap(es) == flows
      ensures Tree(s) && WithinNetwork(vertices, es)
      ensures found <==> t in marked
      ensures Found()
      ensures !found ==> Closed()
      ensures maxFlow == old(maxFlow)
    {
      var seen, tree;
      ghost var rank;
      seen, tree, rank := Search(s, t, vertices, es);
      label searched:
      marked, edgeTo, order := seen, tree, rank;
      found := t in marked;
      if !found {
        forall x | x in marked
          ensures Explored(x, marked)
        {
          assert old@searched(Explored(x, seen));
        }
      }
      assert forall f | f in es :: f in flows && flows[f] == f.flow;
      FlowMapIs(es, flows);
      assert forall x | x in vertices :: lists[x] == x.edgeList;
      ListsIs(vertices, lists);
    }

    /**
     * The bottleneck: the smallest residual capacity over every entry of
     * edgeTo (the whole search tree), starting from Integer.MAX_VALUE.
     */
    method Bottleneck() returns (minValue: int)
      ensures minValue <= MaxInt
      ensures forall x {:trigger edgeTo[x]} | x in edgeTo :: minValue <= edgeTo[x].GetResidualCapacity(x)
      ensures minValue == MaxInt || exists x | x in edgeTo :: minValue == edgeTo[x].GetResidualCapacity(x)
    {
      minValue := MaxInt;
      var keys := edgeTo.Keys;
      while keys != {}
        invariant keys <= edgeTo.Keys
        invariant minValue <= MaxInt
        invariant forall x {:trigger edgeTo[x]} | x in edgeTo && x !in keys :: minValue <= edgeTo[x].GetResidualCapacity(x)
        invariant minValue == MaxInt || exists x | x in edgeTo && x !in keys :: minValue == edgeTo[x].GetResidualCapacity(x)
        decreases keys
      {
        var v :| v in keys;
        var edge := edgeTo[v];
        var residualCapacity := edge.GetResidualCapacity(v);
        minValue := Min(minValue, residualCapacity);
        keys := keys - {v};
      }
    }
  }
}
