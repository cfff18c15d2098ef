/**
 * The flow network: named vertices that own an ordered list of incident
 * edges, and capacitated edges that carry a mutable flow.
 *
 * Vertex names are single characters.  Two vertices are equal when their
 * names are equal; in a network built with one object per name
 * (UniqueNames) name equality and object identity coincide, which is what
 * lets the solver keep Java's HashSet and HashMap as Dafny sets and maps.
 */
module Network {

  /** Integer.MAX_VALUE, the largest Java int. */
  const MaxInt: int := 0x7fff_ffff

  class Vertex {
    const name: char
    var edgeList: seq<Edge>

    /** A new vertex has no incident edges. */
    constructor (name: char)
      ensures this.name == name && edgeList == []
    {
      this.name := name;
      edgeList := [];
    }

    /** The live list of incident edges, in insertion order. */
    function GetEdgeList(): (r: seq<Edge>)
      reads this
      ensures r == edgeList
    {
      edgeList
    }

    /** Appends e at the end; there is no duplicate check. */
    method AddEdge(e: Edge)
      modifies this
      ensures edgeList == old(edgeList) + [e]
    {
      edgeList := edgeList + [e];
    }

    /** Java equals: the identity shortcut, then comparison of names. */
    function Equals(other: Vertex): (r: bool)
      ensures r <==> name == other.name
    {
      this == other || name == other.name
    }

    /**
     * String.hashCode of the one-character name: the code of that
     * character, never negative.
     */
    function HashCode(): (h: int)
      ensures 0 <= h < 0x11_0000
    {
      name as int
    }

    function ToString(): (r: string)
      ensures |r| == 1
    {
      [name]
    }
  }

  class Edge {
    const v: Vertex  // the "from" end
    const w: Vertex  // the "to" end
    const capacity: int
    var flow: int

    /** A new edge carries no flow. */
    constructor (v: Vertex, w: Vertex, capacity: int)
      ensures this.v == v && this.w == w && this.capacity == capacity && flow == 0
    {
      this.v := v;
      this.w := w;
      this.capacity := capacity;
      flow := 0;
    }

    /** The edge connects a and b, in either orientation. */
    predicate Joins(a: Vertex, b: Vertex)
    {
      (v == a && w == b) || (v == b && w == a)
    }

    /**
     * The end opposite to vertex.  A vertex that is not equal to the from
     * end gets the from end back, whether or not it is the to end.
     */
    function GetOther(vertex: Vertex): (r: Vertex)
      ensures r == v || r == w
      ensures r == v <== !vertex.Equals(v)
      ensures vertex.Equals(v) && v != w ==> r != v
    {
      if vertex.Equals(v) then w else v
    }

    /**
     * The flow that can still be pushed toward vertex: toward the from end
     * that is the flow that can be undone, toward the to end the capacity
     * not yet used.
     */
    function GetResidualCapacity(vertex: Vertex): (r: int)
      reads this
      ensures 0 <= flow <= capacity ==> 0 <= r <= capacity
      ensures vertex.Equals(v) ==> r == flow
      ensures !vertex.Equals(v) ==> r + flow == capacity
    {
      Residual(this, vertex, flow)
    }

    /**
     * Pushes deltaFlow toward vertex.  Nothing is checked: keeping the flow
     * within [0, capacity] is the caller's business.
     */
    method AddResidualFlowTo(vertex: Vertex, deltaFlow: int)
      modifies this
      ensures flow == old(flow) + Delta(this, vertex, deltaFlow)
      ensures GetResidualCapacity(vertex) == old(GetResidualCapacity(vertex)) - deltaFlow
      ensures v.name != w.name ==>
        GetResidualCapacity(GetOther(vertex)) == old(GetResidualCapacity(GetOther(vertex))) + deltaFlow
      ensures 0 <= old(flow) <= capacity && 0 <= deltaFlow <= old(GetResidualCapacity(vertex)) ==>
        0 <= flow <= capacity
    {
      flow := flow + Delta(this, vertex, deltaFlow);
    }

    /**
     * The first two characters of toString(), which prints
     * "from-to flow/capacity"; with one-character names they are the from
     * name and the dash.
     */
    function ToStringPrefix(): (r: string)
      ensures r == [v.name, '-']
    {
      (v.ToString() + "-" + w.ToString())[..2]
    }
  }

  /**
   * The residual capacity of e toward x were e to carry flow f: the flow
   * itself toward the from end, the unused capacity toward any other vertex.
   */
  function Residual(e: Edge, x: Vertex, f: int): int
  {
    if x.Equals(e.v) then f else e.capacity - f
  }

  /**
   * What pushing m toward x through e does to the flow of e: it undoes flow
   * toward the from end and adds flow toward any other vertex.
   */
  function Delta(e: Edge, x: Vertex, m: int): int
  {
    if x.Equals(e.v) then -m else m
  }

  /** Some vertex of vertices called c. */
  ghost function Named(vertices: set<Vertex>, c: char): (a: Vertex)
    requires exists a | a in vertices :: a.name == c
    ensures a in vertices && a.name == c
  {
    var a :| a in vertices && a.name == c; a
  }

  /**
   * Two of the network's vertices with the same name are the same object:
   * each is the vertex its name picks out.
   */
  ghost predicate UniqueNames(vertices: set<Vertex>)
  {
    forall a | a in vertices :: Named(vertices, a.name) == a
  }

  /** No edge object occurs twice in es. */
  ghost predicate Distinct(es: seq<Edge>)
  {
    forall i, k | 0 <= i < k < |es| :: es[i] != es[k]
  }

  /** A sequence without repetitions: its head is not in its tail, which has none either. */
  lemma DistinctTail(es: seq<Edge>)
    requires Distinct(es) && es != []
    ensures es[0] !in es[1..] && Distinct(es[1..])
  {
    forall i, k | 0 <= i < k < |es[1..]|
      ensures es[1..][i] != es[1..][k]
    {
      assert es[1..][i] == es[i + 1] && es[1..][k] == es[k + 1];
    }
    forall k | 0 <= k < |es[1..]|
      ensures es[1..][k] != es[0]
    {
      assert es[1..][k] == es[k + 1];
    }
  }

  /** The edge list of each vertex, as a value. */
  ghost function Lists(vertices: set<Vertex>): (m: map<Vertex, seq<Edge>>)
    reads vertices
    ensures m.Keys == vertices && forall x | x in vertices :: m[x] == x.edgeList
  {
    map x | x in vertices :: x.edgeList
  }

  /** A map that gives every vertex of the network its current list, and nothing else, is their edge lists. */
  lemma ListsIs(vertices: set<Vertex>, lists: map<Vertex, seq<Edge>>)
    requires lists.Keys == vertices
    requires forall x | x in vertices :: lists[x] == x.edgeList
    ensures Lists(vertices) == lists
  {
  }

  /**
   * When every vertex but v still has the list lists gives it, the edge
   * lists are lists with the entry of v replaced by its current list.
   */
  lemma ListsButOne(vertices: set<Vertex>, v: Vertex, lists: map<Vertex, seq<Edge>>)
    requires v in vertices && lists.Keys == vertices
    requires forall x | x in vertices && x != v :: lists[x] == x.edgeList
    ensures Lists(vertices) == lists[v := v.edgeList]
  {
  }

  /** The flow each edge object of es carries. */
  ghost function FlowMap(es: seq<Edge>): (fm: map<Edge, int>)
    reads es
    ensures fm.Keys == set e | e in es
    ensures forall e | e in es :: e in fm && fm[e] == e.flow
  {
    map e | e in es :: e.flow
  }

  /** A map that gives exactly the edges of es, each with its current flow, is their flow map. */
  lemma FlowMapIs(es: seq<Edge>, fm: map<Edge, int>)
    requires forall e | e in fm :: e in es
    requires forall e | e in es :: e in fm && fm[e] == e.flow
    ensures FlowMap(es) == fm
  {
  }

  /**
   * The network described by its edge lists and flows: one vertex per
   * name, the ends of every edge are vertices of the network, capacities
   * are non-negative Java ints and flows lie within their capacities, and
   * every edge of a vertex's list is one of the network's edges and has
   * that vertex as an end.
   */
  ghost predicate Consistent(vertices: set<Vertex>, es: seq<Edge>, lists: map<Vertex, seq<Edge>>, fm: map<Edge, int>)
  {
    UniqueNames(vertices) && Distinct(es) &&
    (forall e | e in es :: e.v in vertices && e.w in vertices && 0 <= e.capacity <= MaxInt &&
                           e in fm && 0 <= fm[e] <= e.capacity) &&
    (forall x | x in vertices :: x in lists && forall e | e in lists[x] :: e in es && (e.v == x || e.w == x))
  }

  /** The network as the graph builder leaves it and the solver keeps it (see Consistent). */
  ghost predicate Wellformed(vertices: set<Vertex>, es: seq<Edge>)
    reads vertices, es
  {
    Consistent(vertices, es, Lists(vertices), FlowMap(es))
  }

  /**
   * Which end getOther returns, in a network with one vertex per name:
   * from an end x of e it leads to the other end, and back again to x.
   */
  lemma GetOtherOfOther(vertices: set<Vertex>, e: Edge, x: Vertex)
    requires UniqueNames(vertices) && x in vertices && e.v in vertices && e.w in vertices
    requires e.v == x || e.w == x
    requires e.GetOther(x) != x
    ensures e.Joins(x, e.GetOther(x))
    ensures e.GetOther(e.GetOther(x)) == x
  {
    if x.name == e.v.name {
      assert x == e.v;
    } else {
      assert x == e.w;
      assert e.v.name != e.w.name;
    }
  }

  /** Between the two directions the residual capacities add up to the capacity. */
  lemma ResidualsAddUp(e: Edge)
    requires e.v.name != e.w.name
    ensures e.GetResidualCapacity(e.v) + e.GetResidualCapacity(e.w) == e.capacity
  {
  }

  /** Vertices that are equal have equal hash codes, and equality is reflexive and symmetric. */
  lemma EqualsIsConsistent(a: Vertex, b: Vertex)
    ensures a.Equals(a)
    ensures a.Equals(b) <==> b.Equals(a)
    ensures a.Equals(b) ==> a.HashCode() == b.HashCode()
  {
  }

  /** In a network with one vertex per name, equality is object identity. */
  lemma EqualsIsIdentity(vertices: set<Vertex>, a: Vertex, b: Vertex)
    requires UniqueNames(vertices) && a in vertices && b in vertices
    ensures a.Equals(b) <==> a == b
  {
  }

  /** Two edges share the toString() prefix exactly when they share the from name. */
  lemma PrefixMatchIsSameFrom(e: Edge, f: Edge)
    ensures e.ToStringPrefix() == f.ToStringPrefix() <==> e.v.name == f.v.name
  {
    assert e.ToStringPrefix()[0] == e.v.name;
  }

  /**
   * The worked examples of the Edge documentation: an edge A-B of capacity
   * 10 and flow 6 has residual 6 toward A and 4 toward B; pushing 3 toward A
   * leaves flow 3, pushing 2 toward B leaves flow 8.
   */
  method EdgeExamples() returns (towardA: int, towardB: int, afterBackward: int, afterForward: int)
    ensures towardA == 6 && towardB == 4
    ensures afterBackward == 3 && afterForward == 8
  {
    var a := new Vertex('A');
    var b := new Vertex('B');
    var e := new Edge(a, b, 10);
    e.AddResidualFlowTo(b, 6);
    towardA := e.GetResidualCapacity(a);
    towardB := e.GetResidualCapacity(b);
    e.AddResidualFlowTo(a, 3);
    afterBackward := e.flow;
    var f := new Edge(a, b, 10);
    f.AddResidualFlowTo(b, 6);
    f.AddResidualFlowTo(b, 2);
    afterForward := f.flow;
  }

  /**
   * A new vertex has an empty list, and adding the same edge twice keeps
   * both entries.
   */
  method AddEdgeTwiceExample() returns (before: nat, after: nat, sameEntries: bool)
    ensures before == 0 && after == 2 && sameEntries
  {
    var a := new Vertex('a');
    var b := new Vertex('b');
    var e := new Edge(a, b, 1);
    before := |a.GetEdgeList()|;
    a.AddEdge(e);
    a.AddEdge(e);
    after := |a.GetEdgeList()|;
    sameEntries := a.edgeList[0] == a.edgeList[1] == e;
  }
}
