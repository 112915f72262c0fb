/** The graph record of master.c: a vertex count and an n-by-n adjacency
    matrix of ints, 1 where an edge joins two vertices and 0 elsewhere, with
    the degree analysis and the k-connectivity test that read it. Vertices are
    0-based here, as in the matrix; the input file numbers them from 1. */
module Graphs {

  class Graph {
    /** Number of vertices. */
    const vertices: nat
    /** The adjacency matrix; its cells are written by the loader only. */
    const adj: array2<int>

    ghost predicate Valid() {
      adj.Length0 == vertices && adj.Length1 == vertices
    }

    /** Every cell is 0 or 1. */
    ghost predicate Binary()
      requires Valid()
      reads adj
    {
      forall i, j | 0 <= i < vertices && 0 <= j < vertices :: adj[i, j] == 0 || adj[i, j] == 1
    }

    /** The matrix equals its transpose: edges are undirected. */
    ghost predicate Symmetric()
      requires Valid()
      reads adj
    {
      forall i, j | 0 <= i < vertices && 0 <= j < vertices :: adj[i, j] == adj[j, i]
    }

    /** An n-vertex graph with no edges: the zeroed matrix that calloc gives. */
    constructor (n: nat)
      ensures Valid() && vertices == n && fresh(adj)
      ensures forall i, j | 0 <= i < n && 0 <= j < n :: adj[i, j] == 0
    {
      vertices := n;
      adj := new int[n, n]((i, j) => 0);
    }

    /** The write of one edge by the loader: both directions are set, and
        only when the neighbour `a` names a vertex. An out-of-range neighbour
        leaves the whole matrix as it was. Writing row `v` with `v` out of
        range is undefined in C, so it is excluded here. */
    method InsertNeighbour(v: int, a: int)
      requires Valid()
      requires 0 <= a < vertices ==> 0 <= v < vertices
      modifies adj
      ensures forall i, j | 0 <= i < vertices && 0 <= j < vertices ::
        adj[i, j] == if 0 <= a < vertices && ((i == v && j == a) || (i == a && j == v)) then 1 else old(adj[i, j])
    {
      if 0 <= a < vertices {
        adj[v, a] := 1;
        adj[a, v] := 1;
      }
    }

    // -------------------------------------------------------------------
    // Degrees
    // -------------------------------------------------------------------

    /** Number of columns j < m of row v that hold 1. */
    ghost function CountOnes(v: int, m: int): (c: nat)
      requires Valid() && 0 <= v < vertices && 0 <= m <= vertices
      reads adj
      ensures c <= m
      decreases m
    {
      if m == 0 then 0 else CountOnes(v, m - 1) + (if adj[v, m - 1] == 1 then 1 else 0)
    }

    /** The degree of v: the 1s in its row. */
    ghost function DegreeOf(v: int): (d: nat)
      requires Valid() && 0 <= v < vertices
      reads adj
    {
      CountOnes(v, vertices)
    }

    /** The count equals the size of the set of neighbour columns. */
    lemma {:induction false} CountOnesIsCardinality(v: int, m: int)
      requires Valid() && 0 <= v < vertices && 0 <= m <= vertices
      ensures CountOnes(v, m) == |set j | 0 <= j < m && adj[v, j] == 1|
      decreases m
    {
      if m > 0 {
        CountOnesIsCardinality(v, m - 1);
        var before := set j | 0 <= j < m - 1 && adj[v, j] == 1;
        var after := set j | 0 <= j < m && adj[v, j] == 1;
        if adj[v, m - 1] == 1 {
          assert after == before + {m - 1};
        } else {
          assert after == before;
        }
      }
    }

    /** calcularGrado: the number of 1s in row v, which is between 0 and the
        number of vertices. */
    method Degree(v: int) returns (d: int)
      requires Valid() && 0 <= v < vertices
      ensures d == DegreeOf(v)
      ensures d == |set j | 0 <= j < vertices && adj[v, j] == 1|
      ensures 0 <= d <= vertices
    {
      d := 0;
      for i := 0 to vertices
        invariant d == CountOnes(v, i)
      {
        if adj[v, i] == 1 {
          d := d + 1;
        }
      }
      CountOnesIsCardinality(v, vertices);
    }

    /** The running maximum of gradoMaximo after the first m vertices; it
        starts at 0. */
    ghost function MaxDegreeUpTo(m: int): (r: nat)
      requires Valid() && 0 <= m <= vertices
      reads adj
      ensures r <= vertices
      ensures forall v | 0 <= v < m :: DegreeOf(v) <= r
      ensures m > 0 ==> exists v | 0 <= v < m :: r == DegreeOf(v)
      ensures m == 0 ==> r == 0
      decreases m
    {
      if m == 0 then 0
      else
        var g := DegreeOf(m - 1);
        var r := MaxDegreeUpTo(m - 1);
        if g > r then g else r
    }

    /** The running minimum of gradoMinimo after the first m vertices; it
        starts at the number of vertices. */
    ghost function MinDegreeUpTo(m: int): (r: nat)
      requires Valid() && 0 <= m <= vertices
      reads adj
      ensures r <= vertices
      ensures forall v | 0 <= v < m :: r <= DegreeOf(v)
      ensures m > 0 ==> exists v | 0 <= v < m :: r == DegreeOf(v)
      ensures m == 0 ==> r == vertices
      decreases m
    {
      if m == 0 then vertices
      else
        var g := DegreeOf(m - 1);
        var r := MinDegreeUpTo(m - 1);
        if g < r then g else r
    }

    /** gradoMaximo: the largest degree, and 0 for a graph without vertices. */
    method MaxDegree() returns (max: int)
      requires Valid()
      ensures max == MaxDegreeUpTo(vertices)
      ensures forall v | 0 <= v < vertices :: DegreeOf(v) <= max
      ensures vertices > 0 ==> exists v | 0 <= v < vertices :: max == DegreeOf(v)
      ensures vertices == 0 ==> max == 0
    {
      max := 0;
      for i := 0 to vertices
        invariant max == MaxDegreeUpTo(i)
      {
        var grado := Degree(i);
        if grado > max {
          max := grado;
        }
      }
    }

    /** gradoMinimo: the smallest degree; the seed is the vertex count, so a
        graph without vertices gives 0. */
    method MinDegree() returns (min: int)
      requires Valid()
      ensures min == MinDegreeUpTo(vertices)
      ensures forall v | 0 <= v < vertices :: min <= DegreeOf(v)
      ensures vertices > 0 ==> exists v | 0 <= v < vertices :: min == DegreeOf(v)
      ensures vertices == 0 ==> min == 0
    {
      min := vertices;
      for i := 0 to vertices
        invariant min == MinDegreeUpTo(i)
      {
        var grado := Degree(i);
        if grado < min {
          min := grado;
        }
      }
    }

    /** In a graph with at least one vertex the minimum degree does not
        exceed the maximum degree. */
    lemma MinDegreeAtMostMaxDegree()
      requires Valid() && vertices > 0
      ensures MinDegreeUpTo(vertices) <= MaxDegreeUpTo(vertices)
    {
    }

    // -------------------------------------------------------------------
    // k-connectivity
    // -------------------------------------------------------------------

    /** The decision esKConexo makes: more than k vertices, and every vertex
        of degree at least k. This is a necessary condition for the graph to
        be k-connected, not a sufficient one. */
    ghost predicate KConnectedRule(k: int)
      requires Valid()
      reads adj
    {
      vertices > k && forall v | 0 <= v < vertices :: DegreeOf(v) >= k
    }

    /** Testing the minimum degree against k is the same as testing every
        vertex's degree, the empty graph included. */
    lemma MinDegreeRule(k: int)
      requires Valid()
      ensures KConnectedRule(k) <==> vertices > k && MinDegreeUpTo(vertices) >= k
    {
    }

    /** esKConexo: false when there are at most k vertices, and otherwise
        whether the minimum degree reaches k. */
    method IsKConnected(k: int) returns (b: bool)
      requires Valid()
      ensures b == KConnectedRule(k)
    {
      if vertices <= k {
        return false;
      }
      var min := MinDegree();
      MinDegreeRule(k);
      b := min >= k;
    }

    /** The rule holds for every k <= 0 below the vertex count. */
    lemma NonPositiveKAccepted(k: int)
      requires Valid() && k <= 0 && vertices > k
      ensures KConnectedRule(k)
    {
    }

    /** The rule rejects any k that is not below the vertex count. */
    lemma TooFewVerticesRejected(k: int)
      requires Valid() && vertices <= k
      ensures !KConnectedRule(k)
    {
    }

    /** Passing for k, the rule also passes for every smaller k. */
    lemma KConnectedRuleMonotone(k: int, k': int)
      requires Valid() && k' <= k && KConnectedRule(k)
      ensures KConnectedRule(k')
    {
    }

    /** A vertex of degree below k makes the rule fail; in particular an
        isolated vertex fails it for every k >= 1. */
    lemma LowDegreeRejected(k: int, v: int)
      requires Valid() && 0 <= v < vertices && DegreeOf(v) < k
      ensures !KConnectedRule(k)
    {
    }
  }
}
