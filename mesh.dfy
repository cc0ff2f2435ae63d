/** The node/edge graph the core works on. The node and edge modules of the
    program are not part of this model; their objects are represented here
    as handles into one arena, with only the behaviour their call sites rely
    on: typed undirected edges stored in per-node edge lists, an idempotent
    `connect`, a symmetric `are_connected`, `get_partner_node` and the
    in-place endpoint repointing `update_node`. */
module MeshGraph {
  import opened Common
  import opened Geometry

  /** An edge's type string: "main", "graphical", or anything else (which
      the subdivision pass rejects). */
  datatype EdgeType = Main | Graphical | Unknown(name: string)

  /** The `type_` argument of the edge and triangle queries: "any" or one type. */
  datatype EdgeFilter = AnyType | OnlyType(t: EdgeType)

  /** An undirected typed edge between the nodes with handles `a` and `b`. */
  datatype Edge = Edge(a: nat, b: nat, kind: EdgeType) {

    predicate Joins(x: nat, y: nat, t: EdgeType) {
      kind == t && ((a == x && b == y) || (a == y && b == x))
    }

    predicate Matches(f: EdgeFilter) {
      f.AnyType? || kind == f.t
    }

    /** v is one of the two endpoints. */
    predicate Touches(v: nat) {
      a == v || b == v
    }

    /** `get_partner_node(v)`: the endpoint that is not `v`; the edge joins
        `v` to it. */
    function Partner(v: nat): (p: nat)
      ensures Touches(v) ==> Touches(p) && Joins(v, p, kind)
    {
      if a == v then b else a
    }

    /** `update_node(from, to)`: the endpoint `from` becomes `to`. */
    function Repoint(from: nat, to: nat): (e: Edge)
      ensures e.kind == kind
      ensures Touches(from) ==> e.Touches(to)
    {
      if a == from then Edge(to, b, kind)
      else if b == from then Edge(a, to, kind)
      else this
    }
  }

  datatype Triangle<T> = Triangle(p0: T, p1: T, p2: T)

  /** Every edge's endpoints are handles below n. */
  predicate EndpointsBelow(edges: seq<Edge>, n: nat) {
    forall e | 0 <= e < |edges| :: edges[e].a < n && edges[e].b < n
  }

  /** Some edge of any type joins x and y (`are_connected` with the "any" filter). */
  predicate Linked(edges: seq<Edge>, x: nat, y: nat) {
    exists e | 0 <= e < |edges| :: edges[e].Joins(x, y, edges[e].kind)
  }

  /** `are_connected(x, y, t)`: some edge of the arena joins x and y with type t. */
  predicate Connected(edges: seq<Edge>, x: nat, y: nat, t: EdgeType) {
    exists e | 0 <= e < |edges| :: edges[e].Joins(x, y, t)
  }

  lemma ConnectedSymmetric(edges: seq<Edge>, x: nat, y: nat, t: EdgeType)
    ensures Connected(edges, x, y, t) <==> Connected(edges, y, x, t)
  {
  }

  /** Adding edges never disconnects two nodes. */
  lemma ConnectedGrows(edges: seq<Edge>, more: seq<Edge>, x: nat, y: nat, t: EdgeType)
    requires Connected(edges, x, y, t)
    ensures Connected(edges + more, x, y, t)
  {
    var e :| 0 <= e < |edges| && edges[e].Joins(x, y, t);
    assert (edges + more)[e] == edges[e];
  }

  lemma ConnectedPrefix(edges: seq<Edge>, bigger: seq<Edge>, x: nat, y: nat, t: EdgeType)
    requires edges <= bigger && Connected(edges, x, y, t)
    ensures Connected(bigger, x, y, t)
  {
    var e :| 0 <= e < |edges| && edges[e].Joins(x, y, t);
    assert bigger[e] == edges[e];
  }

  /** The edges of `list` (handles) whose type passes `f`: `get_edges_by_type`. */
  function EdgesOfType(edges: seq<Edge>, list: seq<nat>, f: EdgeFilter): (r: seq<nat>)
    requires AllBelow(list, |edges|)
    ensures forall e | e in r :: e in list && edges[e].Matches(f)
    ensures forall e | e in list && edges[e].Matches(f) :: e in r
    ensures AllBelow(r, |edges|)
  {
    if list == [] then []
    else
      var rest := EdgesOfType(edges, list[..|list| - 1], f);
      var e := list[|list| - 1];
      if edges[e].Matches(f) then rest + [e] else rest
  }

  lemma EdgesOfTypeSnoc(edges: seq<Edge>, list: seq<nat>, j: nat, f: EdgeFilter)
    requires AllBelow(list, |edges|) && j < |list|
    ensures EdgesOfType(edges, list[..j + 1], f)
         == EdgesOfType(edges, list[..j], f) + (if edges[list[j]].Matches(f) then [list[j]] else [])
  {
    assert list[..j + 1][..j] == list[..j];
  }

  /** The partner nodes reached through the edges of `list` from `v`
      (`node.partners`). */
  function Partners(edges: seq<Edge>, list: seq<nat>, v: nat): (r: seq<nat>)
    requires AllBelow(list, |edges|)
    ensures |r| == |list|
    ensures forall k | 0 <= k < |list| :: r[k] == edges[list[k]].Partner(v)
  {
    seq(|list|, k requires 0 <= k < |list| => edges[list[k]].Partner(v))
  }

  /** The edges from index lo on that have an end at v, in table order. */
  function Touching(edges: seq<Edge>, lo: nat, v: nat): (r: seq<nat>)
    ensures forall k | 0 <= k < |r| :: lo <= r[k] < |edges| && edges[r[k]].Touches(v)
    decreases |edges|
  {
    if |edges| <= lo then []
    else
      var k := |edges| - 1;
      Touching(edges[..k], lo, v) + (if edges[k].Touches(v) then [k] else [])
  }

  /** The edge lists of n fresh nodes: empty. */
  function NoEdges(n: nat): (r: seq<seq<nat>>)
    ensures |r| == n
  {
    seq(n, _ => [])
  }

  /** The edge lists after the edges from index lo on were connected: each
      node's list gains, in creation order, the new edges with an end at it. */
  function Attach(incident: seq<seq<nat>>, edges: seq<Edge>, lo: nat): (r: seq<seq<nat>>)
    ensures |r| == |incident|
  {
    seq(|incident|, v requires 0 <= v < |incident| => incident[v] + Touching(edges, lo, v))
  }

  /** With no new edge, no list changes. */
  lemma AttachNone(incident: seq<seq<nat>>, edges: seq<Edge>)
    ensures Attach(incident, edges, |edges|) == incident
  {
    forall v | 0 <= v < |incident|
      ensures Attach(incident, edges, |edges|)[v] == incident[v]
    {
      assert incident[v] + [] == incident[v];
    }
  }

  /** The new edges from lo on are the ones from lo up to mid, then the ones from mid on. */
  lemma {:induction false} TouchingSplit(edges: seq<Edge>, lo: nat, mid: nat, v: nat)
    requires lo <= mid <= |edges|
    ensures Touching(edges, lo, v) == Touching(edges[..mid], lo, v) + Touching(edges, mid, v)
    decreases |edges|
  {
    if |edges| == mid {
      assert edges[..mid] == edges;
    } else {
      var k := |edges| - 1;
      TouchingSplit(edges[..k], lo, mid, v);
      assert edges[..k][..mid] == edges[..mid];
    }
  }

  /** Connecting in two rounds attaches what connecting at once does. */
  lemma AttachTwice(incident: seq<seq<nat>>, edges: seq<Edge>, more: seq<Edge>, lo: nat)
    requires edges <= more && lo <= |edges|
    ensures Attach(Attach(incident, edges, lo), more, |edges|) == Attach(incident, more, lo)
  {
    forall v | 0 <= v < |incident|
      ensures Attach(Attach(incident, edges, lo), more, |edges|)[v] == Attach(incident, more, lo)[v]
    {
      TouchingSplit(more, lo, |edges|, v);
      assert more[..|edges|] == edges;
    }
  }

  /** A node no new edge touches keeps its list. */
  lemma {:induction false} TouchingAway(edges: seq<Edge>, lo: nat, v: nat)
    requires forall e | lo <= e < |edges| :: !edges[e].Touches(v)
    ensures Touching(edges, lo, v) == []
    decreases |edges|
  {
    if |edges| > lo {
      TouchingAway(edges[..|edges| - 1], lo, v);
    }
  }

  /** Nodes below n keep their lists when every new edge has both ends at n or above. */
  lemma AttachBelow(incident: seq<seq<nat>>, edges: seq<Edge>, lo: nat, n: nat)
    requires forall e | lo <= e < |edges| :: edges[e].a >= n && edges[e].b >= n
    ensures forall v | 0 <= v < |incident| && v < n :: Attach(incident, edges, lo)[v] == incident[v]
  {
    forall v | 0 <= v < |incident| && v < n
      ensures Attach(incident, edges, lo)[v] == incident[v]
    {
      TouchingAway(edges, lo, v);
      assert incident[v] + [] == incident[v];
    }
  }

  /** The arena: node coordinates, the edge table, and each node's edge list. */
  class Mesh {
    var coords: seq<Vec3>
    var edges: seq<Edge>
    var incident: seq<seq<nat>>

    /** Every handle in use is in range, and no edge list holds an edge twice. */
    ghost predicate Valid()
      reads this
    {
      && |incident| == |coords|
      && EndpointsBelow(edges, |coords|)
      && (forall v | 0 <= v < |incident| :: NoDup(incident[v]) && AllBelow(incident[v], |edges|))
    }

    constructor ()
      ensures Valid()
      ensures coords == [] && edges == [] && incident == []
    {
      coords, edges, incident := [], [], [];
    }

    /** `Node.from_point(p)`: a new node with no edges. */
    method AddNode(p: Vec3) returns (v: nat)
      requires Valid()
      modifies this
      ensures Valid()
      ensures v == old(|coords|)
      ensures coords == old(coords) + [p] && incident == old(incident) + [[]]
      ensures edges == old(edges)
    {
      v := |coords|;
      coords := coords + [p];
      incident := incident + [[]];
    }

    /** `Edge.are_connected(x, y, t)`: y is the partner of x across some edge
        of type t, and the answer is the same with x and y swapped. */
    predicate AreConnected(x: nat, y: nat, t: EdgeType)
      reads this
      ensures AreConnected(x, y, t) <==>
                exists e | 0 <= e < |edges| :: edges[e].kind == t && edges[e].Touches(x) && edges[e].Partner(x) == y
      ensures AreConnected(x, y, t) <==> Connected(edges, y, x, t)
    {
      ConnectedSymmetric(edges, x, y, t);
      Connected(edges, x, y, t)
    }

    /** `x.connect(y, t)`: idempotent; an edge never joins a node to itself. */
    method Connect(x: nat, y: nat, t: EdgeType)
      requires Valid() && x < |coords| && y < |coords|
      modifies this
      ensures Valid()
      ensures coords == old(coords)
      ensures x != y ==> Connected(edges, x, y, t)
      ensures edges == old(edges)
           || (x != y && !Connected(old(edges), x, y, t) && edges == old(edges) + [Edge(x, y, t)])
      ensures incident == if edges == old(edges) then old(incident)
                          else old(incident)[x := old(incident[x]) + [|old(edges)|]]
                                            [y := old(incident[y]) + [|old(edges)|]]
      ensures incident == Attach(old(incident), edges, old(|edges|))
    {
      if x != y && !Connected(edges, x, y, t) {
        ghost var I0 := incident;
        var e := |edges|;
        edges := edges + [Edge(x, y, t)];
        assert edges[e].Joins(x, y, t);
        var lx, ly := incident[x] + [e], incident[y] + [e];
        assert NoDup(lx) && AllBelow(lx, |edges|);
        assert NoDup(ly) && AllBelow(ly, |edges|);
        incident := incident[x := lx][y := ly];
        forall v | 0 <= v < |I0|
          ensures incident[v] == Attach(I0, edges, e)[v]
        {
          assert edges[..e][..e] == edges[..e];
          assert Touching(edges[..e], e, v) == [];
        }
      } else {
        AttachNone(incident, edges);
      }
    }

    /** `edge.update_node(from, to)`: repoints one endpoint of edge `e`. */
    method UpdateNode(e: nat, from: nat, to: nat)
      requires Valid() && e < |edges| && to < |coords|
      modifies this
      ensures Valid()
      ensures coords == old(coords) && incident == old(incident)
      ensures edges == old(edges)[e := old(edges[e]).Repoint(from, to)]
    {
      edges := edges[e := edges[e].Repoint(from, to)];
    }

    /** `node.edge_list = list`. */
    method SetEdgeList(v: nat, list: seq<nat>)
      requires Valid() && v < |coords| && NoDup(list) && AllBelow(list, |edges|)
      modifies this
      ensures Valid()
      ensures coords == old(coords) && edges == old(edges)
      ensures incident == old(incident)[v := list]
    {
      incident := incident[v := list];
    }
  }
}
