/** Building a graph edge by edge: loops are dropped, parallel edges merged, both directions stored. */
module GraphBuilders {
  import opened Options
  import opened Graphs

  /** The degrees of the first n vertices, added up. */
  ghost function DegreeSum(rows: seq<set<Vertex>>, n: nat): nat
    requires n <= |rows|
  {
    if n == 0 then 0 else DegreeSum(rows, n - 1) + |rows[n - 1]|
  }

  lemma {:induction false} DegreeSumGrows(rows: seq<set<Vertex>>, u: Vertex, v: Vertex, n: nat)
    requires u < |rows| && n <= |rows| && v !in rows[u]
    ensures DegreeSum(rows[u := rows[u] + {v}], n) == DegreeSum(rows, n) + if u < n then 1 else 0
  {
    if n > 0 {
      DegreeSumGrows(rows, u, v, n - 1);
    }
  }

  /** The edge joins u and v, in either direction, and is not a loop. */
  predicate Joins(edge: (Vertex, Vertex), u: Vertex, v: Vertex) {
    u != v && (edge == (u, v) || edge == (v, u))
  }

  class GraphBuilder {
    var rows: seq<set<Vertex>>
    var edgeCount: nat

    ghost predicate Valid()
      reads this
    {
      Adjacency(rows).Simple() && 2 * edgeCount == DegreeSum(rows, |rows|)
    }

    constructor (n: nat)
      ensures Valid() && |rows| == n && edgeCount == 0
      ensures forall u :: 0 <= u < n ==> rows[u] == {}
    {
      rows, edgeCount := seq(n, _ => {}), 0;
      new;
      NoDegrees(rows, n);
    }

    /** False stands for the exception on an endpoint out of range. */
    method AddEdge(a: Vertex, b: Vertex) returns (ok: bool)
      requires Valid()
      modifies this
      ensures Valid() && |rows| == |old(rows)|
      ensures ok <==> a < |rows| && b < |rows|
      ensures !ok ==> rows == old(rows)
      ensures ok ==> forall u: Vertex, v: Vertex :: u < |rows| ==>
        (v in rows[u] <==> v in old(rows)[u] || Joins((a, b), u, v))
    {
      if a >= |rows| || b >= |rows| {
        return false;
      }
      if a == b || b in rows[a] {
        return true;
      }
      DegreeSumGrows(rows, a, b, |rows|);
      rows := rows[a := rows[a] + {b}];
      DegreeSumGrows(rows, b, a, |rows|);
      rows := rows[b := rows[b] + {a}];
      edgeCount := edgeCount + 1;
      return true;
    }
  }

  lemma {:induction false} NoDegrees(rows: seq<set<Vertex>>, n: nat)
    requires n <= |rows| && forall u :: 0 <= u < |rows| ==> rows[u] == {}
    ensures DegreeSum(rows, n) == 0
  {
    if n > 0 {
      NoDegrees(rows, n - 1);
    }
  }

  /** The graph of an edge list; None when an endpoint is out of range. */
  method BuildGraph(n: nat, edges: seq<(Vertex, Vertex)>) returns (g: Option<Graph>, edgeCount: nat)
    ensures g.Some? <==> forall i :: 0 <= i < |edges| ==> edges[i].0 < n && edges[i].1 < n
    ensures g.Some? ==> Size(g.value) == n && 2 * edgeCount == DegreeSum(g.value.rows, n)
    ensures g.Some? ==> forall u: Vertex, v: Vertex :: u < n ==>
      (Adjacent(g.value, u, v) <==> exists i :: 0 <= i < |edges| && Joins(edges[i], u, v))
  {
    var builder := new GraphBuilder(n);
    for i := 0 to |edges|
      invariant builder.Valid() && |builder.rows| == n
      invariant forall j :: 0 <= j < i ==> edges[j].0 < n && edges[j].1 < n
      invariant forall u: Vertex, v: Vertex :: u < n ==>
        (v in builder.rows[u] <==> exists j :: 0 <= j < i && Joins(edges[j], u, v))
    {
      var ok := builder.AddEdge(edges[i].0, edges[i].1);
      if !ok {
        return None, 0;
      }
    }
    return Some(Adjacency(builder.rows)), builder.edgeCount;
  }
}
