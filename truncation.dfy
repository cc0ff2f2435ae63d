/** The corner truncation shared by both versions of the Chaikin3D pass:
    every main edge of an input node yields one new sub-node on that edge,
    the edge is repointed to the sub-node in place, and the sub-nodes of
    one corner become a cycle-connected, inter-connected group. */
module Truncation {
  import opened Common
  import opened Geometry
  import opened MeshGraph
  import opened ChaikinGroups

  datatype PassError =
    | ZeroDivision                 // n == 0 or n == 1 in the ratios
    | UnknownEdgeType(name: string)
    | MissingCorner(node: nat)     // KeyError in the sub-node dictionary
    | NoClosestNode                // the assertion on both nearest picks
    | GroupFailure(cause: GroupError)

  datatype Ratios = Ratios(base: real, special: real)

  /** The two ratios of a pass with coefficient n. The base ratio is
      evaluated first, so n == 0 fails there and n == 1 on the special one. */
  function PassRatios(n: real): (r: Result<Ratios, PassError>)
    ensures r.Err? <==> n == 0.0 || n == 1.0
    ensures r.Ok? ==> r.value.base == BaseRatio(n) && r.value.special == SpecialRatio(n)
  {
    if n == 0.0 || n == 1.0 then Err(ZeroDivision)
    else Ok(Ratios(BaseRatio(n), SpecialRatio(n)))
  }

  /** The base ratio when the partner is a node of the polyhedron being
      subdivided, the special one when it is a sub-node created earlier in
      the same pass. */
  function RatioFor(oldNodes: seq<nat>, partner: nat, rs: Ratios): real {
    if partner in oldNodes then rs.base else rs.special
  }

  /** The main edges of an edge list, in list order. */
  function MainEdges(edges: seq<Edge>, list: seq<nat>): seq<nat>
    requires AllBelow(list, |edges|)
  {
    EdgesOfType(edges, list, OnlyType(Main))
  }

  /** Some edge of the list is neither main nor graphical. */
  predicate HasUnknownEdge(edges: seq<Edge>, list: seq<nat>)
    requires AllBelow(list, |edges|)
  {
    exists k | 0 <= k < |list| :: edges[list[k]].kind.Unknown?
  }

  /** The corner of a node with this edge list cannot be cut and grouped:
      some edge has an unknown type, or no edge is main and the group of
      sub-nodes is empty. */
  predicate CornerFails(edges: seq<Edge>, list: seq<nat>)
    requires AllBelow(list, |edges|)
  {
    HasUnknownEdge(edges, list) || MainEdges(edges, list) == []
  }

  /** Where the sub-node of main edge `e` of v lands. */
  function SubPoint(coords: seq<Vec3>, edges: seq<Edge>, e: nat, v: nat, oldNodes: seq<nat>, rs: Ratios): Vec3
    requires e < |edges| && EndpointsBelow(edges, |coords|) && v < |coords|
  {
    var p := edges[e].Partner(v);
    Cut(coords[p], coords[v], RatioFor(oldNodes, p, rs))
  }

  /** The points of the sub-nodes of v, one per main edge, in order. */
  function CornerPoints(coords: seq<Vec3>, edges: seq<Edge>, mains: seq<nat>, v: nat, oldNodes: seq<nat>, rs: Ratios): (r: seq<Vec3>)
    requires AllBelow(mains, |edges|) && EndpointsBelow(edges, |coords|) && v < |coords|
    ensures |r| == |mains|
  {
    seq(|mains|, j requires 0 <= j < |mains| => SubPoint(coords, edges, mains[j], v, oldNodes, rs))
  }

  /** The edge lists of the sub-nodes: each holds its one repointed edge. */
  function Singletons(mains: seq<nat>): (r: seq<seq<nat>>)
    ensures |r| == |mains|
  {
    seq(|mains|, j requires 0 <= j < |mains| => [mains[j]])
  }

  /** The edge table after the j-th main edge of v was repointed from v to
      the sub-node `first + j`, for every j. */
  function RepointAll(edges: seq<Edge>, mains: seq<nat>, v: nat, first: nat): (r: seq<Edge>)
    requires AllBelow(mains, |edges|)
    ensures |r| == |edges|
    ensures forall e | 0 <= e < |edges| :: r[e].kind == edges[e].kind
  {
    if mains == [] then edges
    else
      var k := |mains| - 1;
      RepointAll(edges, mains[..k], v, first)[mains[k] := edges[mains[k]].Repoint(v, first + k)]
  }

  /** Repointing touches exactly the listed edges: each keeps its type and
      moves its v end to its own sub-node; every other edge is unchanged. */
  lemma {:induction false} RepointAllMeaning(edges: seq<Edge>, mains: seq<nat>, v: nat, first: nat)
    requires AllBelow(mains, |edges|) && NoDup(mains)
    ensures forall j | 0 <= j < |mains| ::
              RepointAll(edges, mains, v, first)[mains[j]] == edges[mains[j]].Repoint(v, first + j)
    ensures forall e | 0 <= e < |edges| && e !in mains :: RepointAll(edges, mains, v, first)[e] == edges[e]
    ensures forall e | 0 <= e < |edges| :: RepointAll(edges, mains, v, first)[e].kind == edges[e].kind
  {
    if mains != [] {
      var k := |mains| - 1;
      var init := mains[..k];
      assert NoDup(init) && AllBelow(init, |edges|);
      RepointAllMeaning(edges, init, v, first);
      forall j | 0 <= j < k
        ensures mains[j] == init[j] && mains[j] != mains[k]
      {
      }
      forall e | 0 <= e < |edges| && e !in mains
        ensures e !in init
      {
      }
    }
  }

  /** An edge not in the list is left alone. */
  lemma {:induction false} RepointAllOutside(edges: seq<Edge>, mains: seq<nat>, v: nat, first: nat, e: nat)
    requires AllBelow(mains, |edges|) && e < |edges| && e !in mains
    ensures RepointAll(edges, mains, v, first)[e] == edges[e]
  {
    if mains != [] {
      var k := |mains| - 1;
      assert mains[k] in mains;
      assert forall x | x in mains[..k] :: x in mains;
      RepointAllOutside(edges, mains[..k], v, first, e);
    }
  }

  /** An edge with no end at v is left alone, whether listed or not. */
  lemma {:induction false} RepointAllAway(edges: seq<Edge>, mains: seq<nat>, v: nat, first: nat, e: nat)
    requires AllBelow(mains, |edges|) && e < |edges| && edges[e].a != v && edges[e].b != v
    ensures RepointAll(edges, mains, v, first)[e] == edges[e]
  {
    if mains != [] {
      var k := |mains| - 1;
      RepointAllAway(edges, mains[..k], v, first, e);
    }
  }

  /** Repointing to the handles below n keeps every endpoint below n. */
  lemma {:induction false} RepointAllBelow(edges: seq<Edge>, mains: seq<nat>, v: nat, first: nat, n: nat)
    requires AllBelow(mains, |edges|) && EndpointsBelow(edges, n) && first + |mains| <= n
    ensures EndpointsBelow(RepointAll(edges, mains, v, first), n)
  {
    if mains != [] {
      RepointAllBelow(edges, mains[..|mains| - 1], v, first, n);
    }
  }

  /** An end other than v stays an end. */
  lemma {:induction false} RepointAllKeepsEnd(edges: seq<Edge>, mains: seq<nat>, v: nat, first: nat, e: nat, z: nat)
    requires AllBelow(mains, |edges|) && e < |edges| && edges[e].Touches(z) && z != v
    ensures RepointAll(edges, mains, v, first)[e].Touches(z)
  {
    if mains != [] {
      RepointAllKeepsEnd(edges, mains[..|mains| - 1], v, first, e, z);
    }
  }

  /** Repointing edges of the first n entries leaves the rest out of it. */
  lemma {:induction false} RepointAllPrefix(edges: seq<Edge>, mains: seq<nat>, v: nat, first: nat, n: nat)
    requires n <= |edges| && AllBelow(mains, n)
    ensures RepointAll(edges, mains, v, first)[..n] == RepointAll(edges[..n], mains, v, first)
  {
    if mains != [] {
      var k := |mains| - 1;
      RepointAllPrefix(edges, mains[..k], v, first, n);
    }
  }

  /** The cut points read only the listed edges. */
  lemma CornerPointsPrefix(coords: seq<Vec3>, edges: seq<Edge>, n: nat, mains: seq<nat>, v: nat, oldNodes: seq<nat>, rs: Ratios)
    requires n <= |edges| && AllBelow(mains, n) && EndpointsBelow(edges, |coords|) && v < |coords|
    ensures CornerPoints(coords, edges, mains, v, oldNodes, rs) == CornerPoints(coords, edges[..n], mains, v, oldNodes, rs)
  {
  }

  /** The main edges of a list depend only on the types of its edges. */
  lemma {:induction false} MainEdgesByKind(E1: seq<Edge>, E2: seq<Edge>, list: seq<nat>)
    requires AllBelow(list, |E1|) && AllBelow(list, |E2|)
    requires forall k | 0 <= k < |list| :: E1[list[k]].kind == E2[list[k]].kind
    ensures MainEdges(E1, list) == MainEdges(E2, list)
    ensures HasUnknownEdge(E1, list) <==> HasUnknownEdge(E2, list)
  {
    if list != [] {
      MainEdgesByKind(E1, E2, list[..|list| - 1]);
    }
  }

  /** The main edges of a list without repeats have no repeats. */
  lemma {:induction false} MainEdgesNoDup(edges: seq<Edge>, list: seq<nat>)
    requires AllBelow(list, |edges|) && NoDup(list)
    ensures NoDup(MainEdges(edges, list))
  {
    if list != [] {
      var k := |list| - 1;
      MainEdgesNoDup(edges, list[..k]);
      assert list[k] !in list[..k];
    }
  }

  /** One main edge of the corner at v: a new node at the cut point, the
      edge repointed to it, its edge list that one edge. */
  method TruncateEdge(m: Mesh, oldNodes: seq<nat>, v: nat, e: nat, rs: Ratios) returns (sub: nat)
    requires m.Valid() && v < |m.coords| && e < |m.edges|
    modifies m
    ensures m.Valid()
    ensures sub == old(|m.coords|)
    ensures m.coords == old(m.coords) + [SubPoint(old(m.coords), old(m.edges), e, v, oldNodes, rs)]
    ensures m.edges == old(m.edges)[e := old(m.edges[e]).Repoint(v, sub)]
    ensures m.incident == old(m.incident) + [[e]]
  {
    var partner := m.edges[e].Partner(v);
    var ratio := RatioFor(oldNodes, partner, rs);
    var w := Cut(m.coords[partner], m.coords[v], ratio);
    sub := m.AddNode(w);
    m.UpdateNode(e, v, sub);
    m.SetEdgeList(sub, [e]);
  }

  lemma CornerPointsSnoc(C0: seq<Vec3>, E0: seq<Edge>, mains: seq<nat>, e: nat, v: nat, oldNodes: seq<nat>, rs: Ratios)
    requires AllBelow(mains, |E0|) && e < |E0| && EndpointsBelow(E0, |C0|) && v < |C0|
    ensures AllBelow(mains + [e], |E0|)
    ensures CornerPoints(C0, E0, mains + [e], v, oldNodes, rs)
         == CornerPoints(C0, E0, mains, v, oldNodes, rs) + [SubPoint(C0, E0, e, v, oldNodes, rs)]
  {
    assert forall j | 0 <= j < |mains| :: (mains + [e])[j] == mains[j];
  }

  lemma RepointAllSnoc(E0: seq<Edge>, mains: seq<nat>, e: nat, v: nat, first: nat)
    requires AllBelow(mains, |E0|) && e < |E0|
    ensures AllBelow(mains + [e], |E0|)
    ensures RepointAll(E0, mains + [e], v, first)
         == RepointAll(E0, mains, v, first)[e := E0[e].Repoint(v, first + |mains|)]
  {
    assert (mains + [e])[..|mains|] == mains;
  }

  /** A cut point depends only on the coordinates of v and of the partner,
      which later appends leave alone. */
  lemma SubPointFrame(C0: seq<Vec3>, E0: seq<Edge>, coords: seq<Vec3>, edges: seq<Edge>,
                      e: nat, v: nat, oldNodes: seq<nat>, rs: Ratios)
    requires e < |E0| && EndpointsBelow(E0, |C0|) && v < |C0|
    requires C0 <= coords && e < |edges| && edges[e] == E0[e] && EndpointsBelow(edges, |coords|)
    ensures SubPoint(coords, edges, e, v, oldNodes, rs) == SubPoint(C0, E0, e, v, oldNodes, rs)
  {
    var p := E0[e].Partner(v);
    assert coords[p] == C0[p] && coords[v] == C0[v];
  }

  /** The arena after the first main edges `mains` of v were cut, starting
      from coordinates C0, edge table E0 and edge lists I0. */
  ghost predicate CutSoFar(m: Mesh, C0: seq<Vec3>, E0: seq<Edge>, I0: seq<seq<nat>>,
                           mains: seq<nat>, v: nat, oldNodes: seq<nat>, rs: Ratios)
    reads m
  {
    && AllBelow(mains, |E0|) && NoDup(mains) && EndpointsBelow(E0, |C0|) && v < |C0|
    && m.coords == C0 + CornerPoints(C0, E0, mains, v, oldNodes, rs)
    && m.edges == RepointAll(E0, mains, v, |C0|)
    && m.incident == I0 + Singletons(mains)
  }

  /** The body of the truncation loop for a main edge e not cut yet. */
  method CutMainEdge(m: Mesh, oldNodes: seq<nat>, v: nat, e: nat, rs: Ratios,
                     ghost C0: seq<Vec3>, ghost E0: seq<Edge>, ghost I0: seq<seq<nat>>, ghost mains: seq<nat>)
      returns (sub: nat)
    requires m.Valid() && e < |E0| && e !in mains
    requires CutSoFar(m, C0, E0, I0, mains, v, oldNodes, rs)
    modifies m
    ensures m.Valid() && sub == |C0| + |mains|
    ensures CutSoFar(m, C0, E0, I0, mains + [e], v, oldNodes, rs)
  {
    RepointAllMeaning(E0, mains, v, |C0|);
    SubPointFrame(C0, E0, m.coords, m.edges, e, v, oldNodes, rs);
    CornerPointsSnoc(C0, E0, mains, e, v, oldNodes, rs);
    RepointAllSnoc(E0, mains, e, v, |C0|);
    sub := TruncateEdge(m, oldNodes, v, e, rs);
    assert Singletons(mains + [e]) == Singletons(mains) + [[e]];
    assert NoDup(mains + [e]);
  }

  /** The first i entries of v's edge list were read: none has an unknown
      type, the main ones are `mains` and their sub-nodes are `subs`, the
      handles from `first` on. */
  ghost predicate Scanned(E0: seq<Edge>, list: seq<nat>, i: nat, mains: seq<nat>, subs: seq<nat>, first: nat) {
    && i <= |list| && AllBelow(list, |E0|) && NoDup(list)
    && (forall k | 0 <= k < i :: !E0[list[k]].kind.Unknown?)
    && mains == MainEdges(E0, list[..i])
    && |subs| == |mains| && (forall j | 0 <= j < |subs| :: subs[j] == first + j)
  }

  /** Reading one more entry of known type. */
  lemma ScannedStep(E0: seq<Edge>, list: seq<nat>, i: nat, mains: seq<nat>, subs: seq<nat>, first: nat)
    requires Scanned(E0, list, i, mains, subs, first) && i < |list|
    ensures list[i] !in mains
    ensures E0[list[i]].kind == Main ==>
              Scanned(E0, list, i + 1, mains + [list[i]], subs + [first + |mains|], first)
    ensures E0[list[i]].kind == Graphical ==> Scanned(E0, list, i + 1, mains, subs, first)
  {
    EdgesOfTypeSnoc(E0, list, i, OnlyType(Main));
    assert list[i] !in list[..i];
  }

  /** The truncation loop over v's edge list: main edges are cut, graphical
      edges skipped, any other type fails with the name of that type.
      Returns the sub-nodes in order. */
  method TruncateCorner(m: Mesh, oldNodes: seq<nat>, v: nat, rs: Ratios) returns (r: Result<seq<nat>, string>)
    requires m.Valid() && v < |m.coords|
    modifies m
    ensures m.Valid()
    ensures r.Err? <==> HasUnknownEdge(old(m.edges), old(m.incident[v]))
    ensures r.Ok? ==>
              var mains := MainEdges(old(m.edges), old(m.incident[v]));
              var first := old(|m.coords|);
              && |r.value| == |mains| && (forall j | 0 <= j < |mains| :: r.value[j] == first + j)
              && m.coords == old(m.coords) + CornerPoints(old(m.coords), old(m.edges), mains, v, oldNodes, rs)
              && m.edges == RepointAll(old(m.edges), mains, v, first)
              && m.incident == old(m.incident) + Singletons(mains)
  {
    ghost var C0, E0, I0 := m.coords, m.edges, m.incident;
    var first := |m.coords|;
    var list := m.incident[v];
    var subs: seq<nat> := [];
    ghost var mains: seq<nat> := [];
    var i := 0;
    while i < |list|
      invariant list == I0[v] && first == |C0| && |E0| == |m.edges|
      invariant m.Valid() && Scanned(E0, list, i, mains, subs, first)
      invariant CutSoFar(m, C0, E0, I0, mains, v, oldNodes, rs)
    {
      var e := list[i];
      ScannedStep(E0, list, i, mains, subs, first);
      RepointAllOutside(E0, mains, v, first, e);
      if m.edges[e].kind == Main {
        var sub := CutMainEdge(m, oldNodes, v, e, rs, C0, E0, I0, mains);
        subs := subs + [sub];
        mains := mains + [e];
      } else if m.edges[e].kind == Graphical {
      } else {
        return Err(m.edges[e].kind.name);
      }
      i := i + 1;
    }
    assert list[..i] == list;
    r := Ok(subs);
  }

  /** The cyclic order `order` gives a group whose nodes are already
      cycle-connected: the last node, then the others in list order. */
  function CycleOrder(s: seq<nat>): seq<nat> {
    if |s| < 3 then s else [s[|s| - 1]] + s[..|s| - 1]
  }

  /** `order` on a group of fewer than three nodes, or on one whose nodes
      are cycle-connected, succeeds with CycleOrder. */
  lemma WalkIsCycleOrder(edges: seq<Edge>, s: seq<nat>)
    requires |s| >= 3 ==> CycleLinked(edges, s, Main)
    ensures OrderedWalk(edges, s) == (CycleOrder(s), true)
  {
    if |s| >= 3 {
      CycleConnectedOrders(edges, s);
    }
  }

  /** The corner group of one input node: `Group(group_set)`,
      `cycle_connect("main")`, then `inter_connect("graphical",
      order_first=True)`. */
  method CornerGroup(m: Mesh, subs: seq<nat>) returns (r: Result<Group, PassError>)
    requires m.Valid() && NoDup(subs) && AllBelow(subs, |m.coords|)
    modifies m
    ensures m.Valid() && m.coords == old(m.coords) && old(m.edges) <= m.edges
    ensures m.incident == Attach(old(m.incident), m.edges, old(|m.edges|))
    ensures forall e | old(|m.edges|) <= e < |m.edges| :: m.edges[e].a in subs && m.edges[e].b in subs
    ensures r.Err? <==> subs == []
    ensures r.Err? ==> r.error == GroupFailure(EmptyGroup)
    ensures r.Ok? ==>
              && fresh(r.value)
              && r.value.Valid() && r.value.Within(|m.coords|)
              && r.value.nodes == subs && r.value.ordered && r.value.triangles == None
              && r.value.ogroup == CycleOrder(subs)
              && (|subs| >= 2 ==> CycleLinked(m.edges, subs, Main))
              && LadderLinked(m.edges, r.value)
  {
    var g := new Group(subs);
    DedupOfDistinct(subs);
    var c := g.CycleConnect(m, Main);
    if c.Fail? {
      return Err(GroupFailure(EmptyGroup));
    }
    ghost var cycled := m.edges;
    StampedWithin(old(m.edges), cycled, subs, Main);
    WalkIsCycleOrder(cycled, subs);
    var ic := g.InterConnect(m, Graphical, true);
    assert ic.Pass?;
    AttachTwice(old(m.incident), cycled, m.edges, old(|m.edges|));
    if |subs| >= 2 {
      CycleLinkedGrows(cycled, m.edges[|cycled|..], subs, Main);
      assert cycled + m.edges[|cycled|..] == m.edges;
    }
    r := Ok(g);
  }

  // ---------------------------------------------------------------------
  // The first loop of a pass as a function of its input

  /** What the first loop reads: the coordinates C0, the edge table E0 and
      the edge lists I0 of the arena, and the input nodes in order. */
  ghost predicate PassInput(C0: seq<Vec3>, E0: seq<Edge>, I0: seq<seq<nat>>, oldNodes: seq<nat>) {
    && |I0| == |C0| && EndpointsBelow(E0, |C0|)
    && (forall v | 0 <= v < |I0| :: NoDup(I0[v]) && AllBelow(I0[v], |E0|))
    && NoDup(oldNodes) && AllBelow(oldNodes, |C0|)
  }

  /** None of the corners of the first a input nodes fails. */
  ghost predicate CornersPass(E0: seq<Edge>, I0: seq<seq<nat>>, oldNodes: seq<nat>, a: nat)
    requires AllBelow(oldNodes, |I0|) && a <= |oldNodes|
    requires forall v | 0 <= v < |I0| :: AllBelow(I0[v], |E0|)
  {
    a == 0 || (CornersPass(E0, I0, oldNodes, a - 1) && !CornerFails(E0, I0[oldNodes[a - 1]]))
  }

  lemma {:induction false} CornersPassMeaning(E0: seq<Edge>, I0: seq<seq<nat>>, oldNodes: seq<nat>, a: nat)
    requires AllBelow(oldNodes, |I0|) && a <= |oldNodes|
    requires forall v | 0 <= v < |I0| :: AllBelow(I0[v], |E0|)
    ensures CornersPass(E0, I0, oldNodes, a) <==> forall b | 0 <= b < a :: !CornerFails(E0, I0[oldNodes[b]])
  {
    if a > 0 {
      CornersPassMeaning(E0, I0, oldNodes, a - 1);
    }
  }

  /** Input node a is the first whose corner fails. */
  ghost predicate FirstFailureAt(E0: seq<Edge>, I0: seq<seq<nat>>, oldNodes: seq<nat>, a: nat)
    requires AllBelow(oldNodes, |I0|)
    requires forall v | 0 <= v < |I0| :: AllBelow(I0[v], |E0|)
  {
    a < |oldNodes| && CornersPass(E0, I0, oldNodes, a) && CornerFails(E0, I0[oldNodes[a]])
  }

  /** The main edges of input node a, in the order its list holds them. */
  function CornerMains(E0: seq<Edge>, I0: seq<seq<nat>>, oldNodes: seq<nat>, a: nat): (r: seq<nat>)
    requires AllBelow(oldNodes, |I0|) && a < |oldNodes| && AllBelow(I0[oldNodes[a]], |E0|)
    ensures AllBelow(r, |E0|)
    ensures forall e | e in r :: e in I0[oldNodes[a]] && E0[e].kind == Main
  {
    MainEdges(E0, I0[oldNodes[a]])
  }

  /** How many sub-nodes the first a input nodes get: one per main edge. */
  function SubsBefore(E0: seq<Edge>, I0: seq<seq<nat>>, oldNodes: seq<nat>, a: nat): nat
    requires AllBelow(oldNodes, |I0|) && a <= |oldNodes|
    requires forall v | 0 <= v < |I0| :: AllBelow(I0[v], |E0|)
  {
    if a == 0 then 0 else SubsBefore(E0, I0, oldNodes, a - 1) + |CornerMains(E0, I0, oldNodes, a - 1)|
  }

  /** The sub-nodes of input node a: the handles after those of the
      earlier input nodes, counting from c0. */
  function SubsOf(E0: seq<Edge>, I0: seq<seq<nat>>, oldNodes: seq<nat>, a: nat, c0: nat): (r: seq<nat>)
    requires AllBelow(oldNodes, |I0|) && a < |oldNodes|
    requires forall v | 0 <= v < |I0| :: AllBelow(I0[v], |E0|)
    ensures |r| == |CornerMains(E0, I0, oldNodes, a)|
    ensures forall j | 0 <= j < |r| :: r[j] == c0 + SubsBefore(E0, I0, oldNodes, a) + j
  {
    var lo := c0 + SubsBefore(E0, I0, oldNodes, a);
    Range(lo, lo + |CornerMains(E0, I0, oldNodes, a)|)
  }

  /** The input's own edges once the first a corners are cut: each main
      edge of each of those input nodes has its end at that node moved to
      the node's sub-node for it; the types are kept. */
  function CutEdges(E0: seq<Edge>, I0: seq<seq<nat>>, oldNodes: seq<nat>, a: nat, c0: nat): (r: seq<Edge>)
    requires AllBelow(oldNodes, |I0|) && a <= |oldNodes|
    requires forall v | 0 <= v < |I0| :: AllBelow(I0[v], |E0|)
    ensures |r| == |E0|
  {
    if a == 0 then E0
    else
      RepointAll(CutEdges(E0, I0, oldNodes, a - 1, c0), CornerMains(E0, I0, oldNodes, a - 1), oldNodes[a - 1],
                 c0 + SubsBefore(E0, I0, oldNodes, a - 1))
  }

  /** Input node a is mapped to its sub-nodes. */
  ghost predicate VirtAt(virt: map<nat, seq<nat>>, E0: seq<Edge>, I0: seq<seq<nat>>, oldNodes: seq<nat>, a: nat, c0: nat)
    requires AllBelow(oldNodes, |I0|) && a < |oldNodes|
    requires forall v | 0 <= v < |I0| :: AllBelow(I0[v], |E0|)
  {
    oldNodes[a] in virt && virt[oldNodes[a]] == SubsOf(E0, I0, oldNodes, a, c0)
  }

  /** Cutting keeps the types, and the ends stay below the handles used. */
  lemma {:induction false} CutEdgesShape(E0: seq<Edge>, I0: seq<seq<nat>>, oldNodes: seq<nat>, a: nat, c0: nat)
    requires AllBelow(oldNodes, |I0|) && a <= |oldNodes|
    requires forall v | 0 <= v < |I0| :: AllBelow(I0[v], |E0|)
    ensures forall e | 0 <= e < |E0| :: CutEdges(E0, I0, oldNodes, a, c0)[e].kind == E0[e].kind
    ensures EndpointsBelow(E0, c0) ==> EndpointsBelow(CutEdges(E0, I0, oldNodes, a, c0), c0 + SubsBefore(E0, I0, oldNodes, a))
  {
    if a > 0 {
      CutEdgesShape(E0, I0, oldNodes, a - 1, c0);
      var mains := CornerMains(E0, I0, oldNodes, a - 1);
      var first := c0 + SubsBefore(E0, I0, oldNodes, a - 1);
      if EndpointsBelow(E0, c0) {
        RepointAllBelow(CutEdges(E0, I0, oldNodes, a - 1, c0), mains, oldNodes[a - 1], first, first + |mains|);
      }
    }
  }

  /** The coordinates once the first a corners are cut: the sub-nodes of
      each of those input nodes are appended at their cut points, read
      from the arena as it was when that corner was cut. */
  function CutCoords(C0: seq<Vec3>, E0: seq<Edge>, I0: seq<seq<nat>>, oldNodes: seq<nat>, a: nat, rs: Ratios): (r: seq<Vec3>)
    requires PassInput(C0, E0, I0, oldNodes) && a <= |oldNodes|
    ensures |r| == |C0| + SubsBefore(E0, I0, oldNodes, a)
    ensures C0 <= r
  {
    if a == 0 then C0
    else
      var prev := CutCoords(C0, E0, I0, oldNodes, a - 1, rs);
      prev + CornerCut(C0, E0, I0, oldNodes, a - 1, prev, rs)
  }

  /** The points of the sub-nodes of input node a, cut from the arena's
      coordinates `coords` as they are when its turn comes. */
  function CornerCut(C0: seq<Vec3>, E0: seq<Edge>, I0: seq<seq<nat>>, oldNodes: seq<nat>, a: nat,
                     coords: seq<Vec3>, rs: Ratios): (r: seq<Vec3>)
    requires PassInput(C0, E0, I0, oldNodes) && a < |oldNodes|
    requires |coords| == |C0| + SubsBefore(E0, I0, oldNodes, a)
    ensures |r| == |CornerMains(E0, I0, oldNodes, a)|
  {
    CutEdgesShape(E0, I0, oldNodes, a, |C0|);
    CornerPoints(coords, CutEdges(E0, I0, oldNodes, a, |C0|), CornerMains(E0, I0, oldNodes, a), oldNodes[a], oldNodes, rs)
  }

  /** Cutting corners only appends coordinates: an existing point stays. */
  lemma {:induction false} CutCoordsKeep(C0: seq<Vec3>, E0: seq<Edge>, I0: seq<seq<nat>>, oldNodes: seq<nat>,
                                         a: nat, b: nat, k: nat, rs: Ratios)
    requires PassInput(C0, E0, I0, oldNodes) && a <= b <= |oldNodes| && k < |CutCoords(C0, E0, I0, oldNodes, a, rs)|
    ensures k < |CutCoords(C0, E0, I0, oldNodes, b, rs)|
    ensures CutCoords(C0, E0, I0, oldNodes, b, rs)[k] == CutCoords(C0, E0, I0, oldNodes, a, rs)[k]
    decreases b
  {
    if a == b {
      return;
    }
    var c := b - 1;
    CutCoordsKeep(C0, E0, I0, oldNodes, a, c, k, rs);
    CutCoordsStep(C0, E0, I0, oldNodes, c, k, rs);
    assert c + 1 == b;
  }

  lemma CutCoordsStep(C0: seq<Vec3>, E0: seq<Edge>, I0: seq<seq<nat>>, oldNodes: seq<nat>, b: nat, k: nat, rs: Ratios)
    requires PassInput(C0, E0, I0, oldNodes) && b < |oldNodes| && k < |CutCoords(C0, E0, I0, oldNodes, b, rs)|
    ensures k < |CutCoords(C0, E0, I0, oldNodes, b + 1, rs)|
    ensures CutCoords(C0, E0, I0, oldNodes, b + 1, rs)[k] == CutCoords(C0, E0, I0, oldNodes, b, rs)[k]
  {
  }

  /** Later input nodes get later sub-nodes. */
  lemma {:induction false} SubsBeforeGrow(E0: seq<Edge>, I0: seq<seq<nat>>, oldNodes: seq<nat>, a: nat, b: nat)
    requires AllBelow(oldNodes, |I0|) && a <= b <= |oldNodes|
    requires forall v | 0 <= v < |I0| :: AllBelow(I0[v], |E0|)
    ensures SubsBefore(E0, I0, oldNodes, a) <= SubsBefore(E0, I0, oldNodes, b)
    decreases b
  {
    if a < b {
      SubsBeforeGrow(E0, I0, oldNodes, a, b - 1);
    }
  }

  /** Cutting corner a: the j-th main edge e of input node x is repointed
      from x to the sub-node s, placed at the cut point of e. */
  lemma CutStep(C0: seq<Vec3>, E0: seq<Edge>, I0: seq<seq<nat>>, oldNodes: seq<nat>, a: nat, j: nat, rs: Ratios)
    requires PassInput(C0, E0, I0, oldNodes) && a < |oldNodes| && j < |CornerMains(E0, I0, oldNodes, a)|
    ensures var x, e := oldNodes[a], CornerMains(E0, I0, oldNodes, a)[j];
            var s := SubsOf(E0, I0, oldNodes, a, |C0|)[j];
            var before := CutEdges(E0, I0, oldNodes, a, |C0|);
            && CutEdges(E0, I0, oldNodes, a + 1, |C0|)[e] == before[e].Repoint(x, s)
            && s < |CutCoords(C0, E0, I0, oldNodes, a + 1, rs)|
            && EndpointsBelow(before, |CutCoords(C0, E0, I0, oldNodes, a, rs)|)
            && CutCoords(C0, E0, I0, oldNodes, a + 1, rs)[s]
               == SubPoint(CutCoords(C0, E0, I0, oldNodes, a, rs), before, e, x, oldNodes, rs)
  {
    MainEdgesNoDup(E0, I0[oldNodes[a]]);
    CutEdgesShape(E0, I0, oldNodes, a, |C0|);
    var mains := CornerMains(E0, I0, oldNodes, a);
    RepointAllMeaning(CutEdges(E0, I0, oldNodes, a, |C0|), mains, oldNodes[a], |C0| + SubsBefore(E0, I0, oldNodes, a));
  }

  /** The edge table side of CutStep. */
  lemma CutStepEdges(E0: seq<Edge>, I0: seq<seq<nat>>, oldNodes: seq<nat>, c0: nat, a: nat, j: nat)
    requires forall v | 0 <= v < |I0| :: NoDup(I0[v]) && AllBelow(I0[v], |E0|)
    requires AllBelow(oldNodes, |I0|) && a < |oldNodes| && j < |CornerMains(E0, I0, oldNodes, a)|
    ensures var e := CornerMains(E0, I0, oldNodes, a)[j];
            CutEdges(E0, I0, oldNodes, a + 1, c0)[e]
            == CutEdges(E0, I0, oldNodes, a, c0)[e].Repoint(oldNodes[a], SubsOf(E0, I0, oldNodes, a, c0)[j])
  {
    MainEdgesNoDup(E0, I0[oldNodes[a]]);
    RepointAllMeaning(CutEdges(E0, I0, oldNodes, a, c0), CornerMains(E0, I0, oldNodes, a), oldNodes[a],
                      c0 + SubsBefore(E0, I0, oldNodes, a));
  }

  /** An edge none of whose ends is cut in corners a up to b is unchanged
      by them. */
  lemma {:induction false} CutEdgesAway(E0: seq<Edge>, I0: seq<seq<nat>>, oldNodes: seq<nat>, c0: nat, a: nat, b: nat, e: nat)
    requires AllBelow(oldNodes, |I0|) && a <= b <= |oldNodes| && e < |E0|
    requires forall v | 0 <= v < |I0| :: AllBelow(I0[v], |E0|)
    requires forall t | a <= t < b :: !CutEdges(E0, I0, oldNodes, a, c0)[e].Touches(oldNodes[t])
    ensures CutEdges(E0, I0, oldNodes, b, c0)[e] == CutEdges(E0, I0, oldNodes, a, c0)[e]
    decreases b
  {
    if a < b {
      CutEdgesAway(E0, I0, oldNodes, c0, a, b - 1, e);
      RepointAllAway(CutEdges(E0, I0, oldNodes, b - 1, c0), CornerMains(E0, I0, oldNodes, b - 1), oldNodes[b - 1],
                     c0 + SubsBefore(E0, I0, oldNodes, b - 1), e);
    }
  }

  /** An end that is not one of the input nodes a up to b stays an end. */
  lemma {:induction false} CutEdgesKeepEnd(E0: seq<Edge>, I0: seq<seq<nat>>, oldNodes: seq<nat>, c0: nat, a: nat, b: nat, e: nat, z: nat)
    requires AllBelow(oldNodes, |I0|) && a <= b <= |oldNodes| && e < |E0|
    requires forall v | 0 <= v < |I0| :: AllBelow(I0[v], |E0|)
    requires CutEdges(E0, I0, oldNodes, a, c0)[e].Touches(z)
    requires forall t | a <= t < b :: oldNodes[t] != z
    ensures CutEdges(E0, I0, oldNodes, b, c0)[e].Touches(z)
    decreases b
  {
    if a < b {
      CutEdgesKeepEnd(E0, I0, oldNodes, c0, a, b - 1, e, z);
      RepointAllKeepsEnd(CutEdges(E0, I0, oldNodes, b - 1, c0), CornerMains(E0, I0, oldNodes, b - 1), oldNodes[b - 1],
                         c0 + SubsBefore(E0, I0, oldNodes, b - 1), e, z);
    }
  }

  /** The arena after the first loop of a pass, edges added after it
      included: the coordinates are CutCoords, the input's own edges are
      CutEdges, and each input node's sub-nodes are SubsOf. */
  ghost predicate CutAsSpecified(coords: seq<Vec3>, edges: seq<Edge>, virt: map<nat, seq<nat>>,
                                 C0: seq<Vec3>, E0: seq<Edge>, I0: seq<seq<nat>>, oldNodes: seq<nat>, rs: Ratios)
  {
    && PassInput(C0, E0, I0, oldNodes)
    && coords == CutCoords(C0, E0, I0, oldNodes, |oldNodes|, rs)
    && |E0| <= |edges| && edges[..|E0|] == CutEdges(E0, I0, oldNodes, |oldNodes|, |C0|)
    && (forall a | 0 <= a < |oldNodes| :: VirtAt(virt, E0, I0, oldNodes, a, |C0|))
  }

  /** Adding edges after the input's own leaves the first loop's result. */
  lemma CutAsSpecifiedGrow(coords: seq<Vec3>, edges: seq<Edge>, more: seq<Edge>, virt: map<nat, seq<nat>>,
                           C0: seq<Vec3>, E0: seq<Edge>, I0: seq<seq<nat>>, oldNodes: seq<nat>, rs: Ratios)
    requires CutAsSpecified(coords, edges, virt, C0, E0, I0, oldNodes, rs) && edges <= more
    ensures CutAsSpecified(coords, more, virt, C0, E0, I0, oldNodes, rs)
  {
    assert more[..|E0|] == edges[..|E0|];
  }

  /** Where a sub-node lands: the j-th main edge e of input node x gets the
      sub-node s = virt[x][j], placed on e between x and p, the other end
      of e when x's corner was cut, at the base ratio when p is an input
      node and at the special ratio when p is a sub-node placed before; e
      stays main and, when it had an end at x, now has one at s. */
  lemma SubNodeOnItsEdge(coords: seq<Vec3>, edges: seq<Edge>, virt: map<nat, seq<nat>>,
                         C0: seq<Vec3>, E0: seq<Edge>, I0: seq<seq<nat>>, oldNodes: seq<nat>, rs: Ratios, a: nat, j: nat)
    requires CutAsSpecified(coords, edges, virt, C0, E0, I0, oldNodes, rs)
    requires a < |oldNodes| && j < |CornerMains(E0, I0, oldNodes, a)|
    ensures VirtAt(virt, E0, I0, oldNodes, a, |C0|)
    ensures var x, e := oldNodes[a], CornerMains(E0, I0, oldNodes, a)[j];
            var p := CutEdges(E0, I0, oldNodes, a, |C0|)[e].Partner(x);
            && j < |virt[x]| && virt[x][j] < |coords| && p < |coords| && x < |coords| && e < |edges|
            && coords[virt[x][j]] == Cut(coords[p], coords[x], RatioFor(oldNodes, p, rs))
            && edges[e].kind == Main
            && (E0[e].Touches(x) ==> edges[e].Touches(virt[x][j]))
  {
    assert VirtAt(virt, E0, I0, oldNodes, a, |C0|);
    var e := CornerMains(E0, I0, oldNodes, a)[j];
    SubPointAt(C0, E0, I0, oldNodes, rs, a, j);
    SubEdgeAt(E0, I0, oldNodes, |C0|, a, j);
    assert edges[e] == CutEdges(E0, I0, oldNodes, |oldNodes|, |C0|)[e];
  }

  /** The coordinate side of SubNodeOnItsEdge, on CutCoords. */
  lemma SubPointAt(C0: seq<Vec3>, E0: seq<Edge>, I0: seq<seq<nat>>, oldNodes: seq<nat>, rs: Ratios, a: nat, j: nat)
    requires PassInput(C0, E0, I0, oldNodes) && a < |oldNodes| && j < |CornerMains(E0, I0, oldNodes, a)|
    ensures var x, e, s := oldNodes[a], CornerMains(E0, I0, oldNodes, a)[j], SubsOf(E0, I0, oldNodes, a, |C0|)[j];
            var p := CutEdges(E0, I0, oldNodes, a, |C0|)[e].Partner(x);
            var final := CutCoords(C0, E0, I0, oldNodes, |oldNodes|, rs);
            && s < |final| && p < |final| && x < |final|
            && final[s] == Cut(final[p], final[x], RatioFor(oldNodes, p, rs))
  {
    var x, e, s := oldNodes[a], CornerMains(E0, I0, oldNodes, a)[j], SubsOf(E0, I0, oldNodes, a, |C0|)[j];
    var n, c := |oldNodes|, a + 1;
    var p := CutEdges(E0, I0, oldNodes, a, |C0|)[e].Partner(x);
    CutStep(C0, E0, I0, oldNodes, a, j, rs);
    assert c == a + 1;
    CutCoordsKeep(C0, E0, I0, oldNodes, c, n, s, rs);
    CutCoordsKeep(C0, E0, I0, oldNodes, a, n, p, rs);
    CutCoordsKeep(C0, E0, I0, oldNodes, 0, a, x, rs);
    CutCoordsKeep(C0, E0, I0, oldNodes, a, n, x, rs);
  }

  /** The edge side of SubNodeOnItsEdge, on CutEdges. */
  lemma SubEdgeAt(E0: seq<Edge>, I0: seq<seq<nat>>, oldNodes: seq<nat>, c0: nat, a: nat, j: nat)
    requires AllBelow(oldNodes, |I0|) && a < |oldNodes|
    requires forall v | 0 <= v < |I0| :: NoDup(I0[v]) && AllBelow(I0[v], |E0|)
    requires j < |CornerMains(E0, I0, oldNodes, a)| && NoDup(oldNodes)
    requires AllBelow(oldNodes, c0)
    ensures var x, e, s := oldNodes[a], CornerMains(E0, I0, oldNodes, a)[j], SubsOf(E0, I0, oldNodes, a, c0)[j];
            var final := CutEdges(E0, I0, oldNodes, |oldNodes|, c0);
            && final[e].kind == Main
            && (E0[e].Touches(x) ==> final[e].Touches(s))
  {
    var x, e, s := oldNodes[a], CornerMains(E0, I0, oldNodes, a)[j], SubsOf(E0, I0, oldNodes, a, c0)[j];
    var n, c := |oldNodes|, a + 1;
    CutEdgesShape(E0, I0, oldNodes, n, c0);
    if E0[e].Touches(x) {
      CutStepEdges(E0, I0, oldNodes, c0, a, j);
      assert c == a + 1;
      CutEdgesKeepEnd(E0, I0, oldNodes, c0, 0, a, e, x);
      CutEdgesKeepEnd(E0, I0, oldNodes, c0, c, n, e, s);
    }
  }

  /** Corner a moves the x end of its j-th main edge e, whose other end u
      is no input node cut up to hi, to its sub-node s: from then until hi,
      e joins s and u. */
  lemma CutOneEnd(E0: seq<Edge>, I0: seq<seq<nat>>, oldNodes: seq<nat>, c0: nat, a: nat, j: nat, hi: nat, u: nat)
    requires AllBelow(oldNodes, c0) && AllBelow(oldNodes, |I0|)
    requires forall v | 0 <= v < |I0| :: NoDup(I0[v]) && AllBelow(I0[v], |E0|)
    requires a < hi <= |oldNodes| && j < |CornerMains(E0, I0, oldNodes, a)|
    requires forall t | a < t < hi :: oldNodes[t] != u
    requires var e, x := CornerMains(E0, I0, oldNodes, a)[j], oldNodes[a];
             var kind := E0[e].kind;
             x != u && (CutEdges(E0, I0, oldNodes, a, c0)[e] == Edge(x, u, kind) ||
                        CutEdges(E0, I0, oldNodes, a, c0)[e] == Edge(u, x, kind))
    ensures var e, s := CornerMains(E0, I0, oldNodes, a)[j], SubsOf(E0, I0, oldNodes, a, c0)[j];
            var kind := E0[e].kind;
            CutEdges(E0, I0, oldNodes, hi, c0)[e] == Edge(s, u, kind) ||
            CutEdges(E0, I0, oldNodes, hi, c0)[e] == Edge(u, s, kind)
  {
    var e, s := CornerMains(E0, I0, oldNodes, a)[j], SubsOf(E0, I0, oldNodes, a, c0)[j];
    var kind, c := E0[e].kind, a + 1;
    var moved := CutEdges(E0, I0, oldNodes, c, c0)[e];
    assert moved == Edge(s, u, kind) || moved == Edge(u, s, kind) by {
      CutStepEdges(E0, I0, oldNodes, c0, a, j);
      assert c == a + 1;
    }
    assert forall t | c <= t < hi :: !moved.Touches(oldNodes[t]) by {
      assert s >= c0;
    }
    CutEdgesAway(E0, I0, oldNodes, c0, c, hi, e);
  }

  /** The edge table side of EdgeCutAtBothEnds: e keeps its input ends
      until x's corner, then joins s to p until p's corner, then s to t. */
  lemma EdgeCutEnds(E0: seq<Edge>, I0: seq<seq<nat>>, oldNodes: seq<nat>, c0: nat, a: nat, j: nat, b: nat, k: nat)
    requires AllBelow(oldNodes, c0) && NoDup(oldNodes) && AllBelow(oldNodes, |I0|)
    requires forall v | 0 <= v < |I0| :: NoDup(I0[v]) && AllBelow(I0[v], |E0|)
    requires a < b < |oldNodes|
    requires j < |CornerMains(E0, I0, oldNodes, a)| && k < |CornerMains(E0, I0, oldNodes, b)|
    requires CornerMains(E0, I0, oldNodes, a)[j] == CornerMains(E0, I0, oldNodes, b)[k]
    requires var e := CornerMains(E0, I0, oldNodes, a)[j];
             E0[e].Touches(oldNodes[a]) && E0[e].Touches(oldNodes[b])
    ensures var x, p, e := oldNodes[a], oldNodes[b], CornerMains(E0, I0, oldNodes, a)[j];
            var s, t := SubsOf(E0, I0, oldNodes, a, c0)[j], SubsOf(E0, I0, oldNodes, b, c0)[k];
            && CutEdges(E0, I0, oldNodes, a, c0)[e].Partner(x) == p
            && CutEdges(E0, I0, oldNodes, b, c0)[e].Partner(p) == s
            && CutEdges(E0, I0, oldNodes, |oldNodes|, c0)[e].Joins(s, t, Main)
  {
    var x, p, e := oldNodes[a], oldNodes[b], CornerMains(E0, I0, oldNodes, a)[j];
    var s := SubsOf(E0, I0, oldNodes, a, c0)[j];
    assert x != p && e in CornerMains(E0, I0, oldNodes, a);
    assert E0[e] == Edge(x, p, E0[e].kind) || E0[e] == Edge(p, x, E0[e].kind);
    CutEdgesAway(E0, I0, oldNodes, c0, 0, a, e);
    CutOneEnd(E0, I0, oldNodes, c0, a, j, b, p);
    assert s >= c0;
    CutOneEnd(E0, I0, oldNodes, c0, b, k, |oldNodes|, s);
  }

  /** The Chaikin cut of an input edge: a main edge e between input nodes
      x (cut first) and p (cut later), listed by both, ends up joining the
      sub-node of x for it to the sub-node of p for it, and each of the two
      sits 1/n of the way along the old edge from its own end. */
  lemma EdgeCutAtBothEnds(coords: seq<Vec3>, edges: seq<Edge>, virt: map<nat, seq<nat>>,
                          C0: seq<Vec3>, E0: seq<Edge>, I0: seq<seq<nat>>, oldNodes: seq<nat>, n: real,
                          a: nat, j: nat, b: nat, k: nat)
    requires PassRatios(n).Ok? && CutAsSpecified(coords, edges, virt, C0, E0, I0, oldNodes, PassRatios(n).value)
    requires a < b < |oldNodes|
    requires j < |CornerMains(E0, I0, oldNodes, a)| && k < |CornerMains(E0, I0, oldNodes, b)|
    requires CornerMains(E0, I0, oldNodes, a)[j] == CornerMains(E0, I0, oldNodes, b)[k]
    requires var e := CornerMains(E0, I0, oldNodes, a)[j];
             E0[e].Touches(oldNodes[a]) && E0[e].Touches(oldNodes[b])
    ensures VirtAt(virt, E0, I0, oldNodes, a, |C0|) && VirtAt(virt, E0, I0, oldNodes, b, |C0|)
    ensures var x, p, e := oldNodes[a], oldNodes[b], CornerMains(E0, I0, oldNodes, a)[j];
            && j < |virt[x]| && k < |virt[p]| && virt[x][j] < |coords| && virt[p][k] < |coords| && e < |edges|
            && edges[e].Joins(virt[x][j], virt[p][k], Main)
            && coords[virt[x][j]] == Add(C0[x], Scale(1.0 / n, Sub(C0[p], C0[x])))
            && coords[virt[p][k]] == Add(C0[p], Scale(1.0 / n, Sub(C0[x], C0[p])))
  {
    var rs := PassRatios(n).value;
    assert VirtAt(virt, E0, I0, oldNodes, a, |C0|) && VirtAt(virt, E0, I0, oldNodes, b, |C0|);
    var x, p, e := oldNodes[a], oldNodes[b], CornerMains(E0, I0, oldNodes, a)[j];
    var s := virt[x][j];
    EdgeCutEnds(E0, I0, oldNodes, |C0|, a, j, b, k);
    assert edges[e] == CutEdges(E0, I0, oldNodes, |oldNodes|, |C0|)[e];
    SubNodeOnItsEdge(coords, edges, virt, C0, E0, I0, oldNodes, rs, a, j);
    SubNodeOnItsEdge(coords, edges, virt, C0, E0, I0, oldNodes, rs, b, k);
    assert s !in oldNodes;
    CutCoordsKeep(C0, E0, I0, oldNodes, 0, |oldNodes|, p, rs);
    CutCoordsKeep(C0, E0, I0, oldNodes, 0, |oldNodes|, x, rs);
    TwoCutsOfOneEdge(C0[x], C0[p], n);
  }

  /** The arena after the first i corners of the first loop: coordinates
      and the input's own edges as specified, the input nodes' edge lists
      as they were, none of those corners failing, and each of those input
      nodes mapped to its sub-nodes. */
  ghost predicate FirstCorners(coords: seq<Vec3>, edges: seq<Edge>, incident: seq<seq<nat>>, virt: map<nat, seq<nat>>, i: nat,
                               C0: seq<Vec3>, E0: seq<Edge>, I0: seq<seq<nat>>, oldNodes: seq<nat>, rs: Ratios)
  {
    && PassInput(C0, E0, I0, oldNodes) && i <= |oldNodes|
    && coords == CutCoords(C0, E0, I0, oldNodes, i, rs)
    && |E0| <= |edges| && edges[..|E0|] == CutEdges(E0, I0, oldNodes, i, |C0|)
    && |C0| <= |incident| && (forall x | 0 <= x < |C0| :: incident[x] == I0[x])
    && (forall a | 0 <= a < i :: !CornerFails(E0, I0[oldNodes[a]]))
    && (forall a | 0 <= a < i :: VirtAt(virt, E0, I0, oldNodes, a, |C0|))
  }

  /** What corner i reads agrees with the input: its edge list, its main
      edges and whether it has an edge of unknown type. */
  lemma FirstCornersRead(coords: seq<Vec3>, edges: seq<Edge>, incident: seq<seq<nat>>, virt: map<nat, seq<nat>>, i: nat,
                         C0: seq<Vec3>, E0: seq<Edge>, I0: seq<seq<nat>>, oldNodes: seq<nat>, rs: Ratios)
    requires FirstCorners(coords, edges, incident, virt, i, C0, E0, I0, oldNodes, rs) && i < |oldNodes|
    ensures var list := incident[oldNodes[i]];
            && list == I0[oldNodes[i]] && AllBelow(list, |edges|)
            && MainEdges(edges, list) == CornerMains(E0, I0, oldNodes, i)
            && (HasUnknownEdge(edges, list) <==> HasUnknownEdge(E0, list))
            && (CornerFails(edges, list) <==> CornerFails(E0, list))
  {
    var list := I0[oldNodes[i]];
    CutEdgesShape(E0, I0, oldNodes, i, |C0|);
    forall k | 0 <= k < |list|
      ensures edges[list[k]].kind == E0[list[k]].kind
    {
      assert edges[list[k]] == edges[..|E0|][list[k]];
    }
    MainEdgesByKind(edges, E0, list);
  }

  /** What one round of the first loop hands to FirstCornersStep: the state
      before it and the corner it cut. */
  ghost predicate FirstStepInput(coords: seq<Vec3>, edges: seq<Edge>, incident: seq<seq<nat>>, virt: map<nat, seq<nat>>, i: nat,
                         C0: seq<Vec3>, E0: seq<Edge>, I0: seq<seq<nat>>, oldNodes: seq<nat>, rs: Ratios,
                         coords': seq<Vec3>, edges': seq<Edge>, incident': seq<seq<nat>>, subs: seq<nat>)
  {
    && FirstCorners(coords, edges, incident, virt, i, C0, E0, I0, oldNodes, rs) && i < |oldNodes|
    && oldNodes[i] < |incident| && AllBelow(incident[oldNodes[i]], |edges|)
    && !CornerFails(edges, incident[oldNodes[i]])
    && var v := oldNodes[i];
       var mains := MainEdges(edges, incident[v]);
       && EndpointsBelow(edges, |coords|)
       && |subs| == |mains| && (forall j | 0 <= j < |subs| :: subs[j] == |coords| + j)
       && coords' == coords + CornerPoints(coords, edges, mains, v, oldNodes, rs)
       && |edges| <= |edges'| && edges'[..|edges|] == RepointAll(edges, mains, v, |coords|)
       && |C0| <= |incident'| && (forall x | 0 <= x < |C0| :: incident'[x] == incident[x])
  }

  /** One round of the first loop keeps FirstCorners, one step further. */
  lemma FirstCornersStep(coords: seq<Vec3>, edges: seq<Edge>, incident: seq<seq<nat>>, virt: map<nat, seq<nat>>, i: nat,
                         C0: seq<Vec3>, E0: seq<Edge>, I0: seq<seq<nat>>, oldNodes: seq<nat>, rs: Ratios,
                         coords': seq<Vec3>, edges': seq<Edge>, incident': seq<seq<nat>>, subs: seq<nat>)
    requires FirstStepInput(coords, edges, incident, virt, i, C0, E0, I0, oldNodes, rs, coords', edges', incident', subs)
    ensures FirstCorners(coords', edges', incident', virt[oldNodes[i] := subs], i + 1, C0, E0, I0, oldNodes, rs)
  {
    FirstStepCoords(coords, edges, incident, virt, i, C0, E0, I0, oldNodes, rs, coords', edges', incident', subs);
    FirstStepEdges(coords, edges, incident, virt, i, C0, E0, I0, oldNodes, rs, coords', edges', incident', subs);
    FirstStepPasses(coords, edges, incident, virt, i, C0, E0, I0, oldNodes, rs, coords', edges', incident', subs);
    ghost var virt' := virt[oldNodes[i] := subs];
    FirstStepVirt(coords, edges, incident, virt, i, C0, E0, I0, oldNodes, rs, coords', edges', incident', subs, virt');
  }

  lemma FirstStepCoords(coords: seq<Vec3>, edges: seq<Edge>, incident: seq<seq<nat>>, virt: map<nat, seq<nat>>, i: nat,
                         C0: seq<Vec3>, E0: seq<Edge>, I0: seq<seq<nat>>, oldNodes: seq<nat>, rs: Ratios,
                         coords': seq<Vec3>, edges': seq<Edge>, incident': seq<seq<nat>>, subs: seq<nat>)
    requires FirstStepInput(coords, edges, incident, virt, i, C0, E0, I0, oldNodes, rs, coords', edges', incident', subs)
    ensures coords' == CutCoords(C0, E0, I0, oldNodes, i + 1, rs)
  {
    FirstCornersRead(coords, edges, incident, virt, i, C0, E0, I0, oldNodes, rs);
    StepCoords(coords, edges, C0, E0, I0, oldNodes, rs, i, coords');
  }

  lemma FirstStepEdges(coords: seq<Vec3>, edges: seq<Edge>, incident: seq<seq<nat>>, virt: map<nat, seq<nat>>, i: nat,
                         C0: seq<Vec3>, E0: seq<Edge>, I0: seq<seq<nat>>, oldNodes: seq<nat>, rs: Ratios,
                         coords': seq<Vec3>, edges': seq<Edge>, incident': seq<seq<nat>>, subs: seq<nat>)
    requires FirstStepInput(coords, edges, incident, virt, i, C0, E0, I0, oldNodes, rs, coords', edges', incident', subs)
    ensures |E0| <= |edges'| && edges'[..|E0|] == CutEdges(E0, I0, oldNodes, i + 1, |C0|)
  {
    FirstCornersRead(coords, edges, incident, virt, i, C0, E0, I0, oldNodes, rs);
    StepEdges(coords, edges, C0, E0, I0, oldNodes, i, edges');
  }

  lemma FirstStepPasses(coords: seq<Vec3>, edges: seq<Edge>, incident: seq<seq<nat>>, virt: map<nat, seq<nat>>, i: nat,
                         C0: seq<Vec3>, E0: seq<Edge>, I0: seq<seq<nat>>, oldNodes: seq<nat>, rs: Ratios,
                         coords': seq<Vec3>, edges': seq<Edge>, incident': seq<seq<nat>>, subs: seq<nat>)
    requires FirstStepInput(coords, edges, incident, virt, i, C0, E0, I0, oldNodes, rs, coords', edges', incident', subs)
    ensures forall a | 0 <= a < i + 1 :: !CornerFails(E0, I0[oldNodes[a]])
  {
    FirstCornersRead(coords, edges, incident, virt, i, C0, E0, I0, oldNodes, rs);
  }

  lemma FirstStepVirt(coords: seq<Vec3>, edges: seq<Edge>, incident: seq<seq<nat>>, virt: map<nat, seq<nat>>, i: nat,
                         C0: seq<Vec3>, E0: seq<Edge>, I0: seq<seq<nat>>, oldNodes: seq<nat>, rs: Ratios,
                         coords': seq<Vec3>, edges': seq<Edge>, incident': seq<seq<nat>>, subs: seq<nat>, virt': map<nat, seq<nat>>)
    requires FirstStepInput(coords, edges, incident, virt, i, C0, E0, I0, oldNodes, rs, coords', edges', incident', subs)
    requires virt' == virt[oldNodes[i] := subs]
    ensures forall a | 0 <= a < i + 1 :: VirtAt(virt', E0, I0, oldNodes, a, |C0|)
  {
    FirstCornersRead(coords, edges, incident, virt, i, C0, E0, I0, oldNodes, rs);
    StepSubs(coords, C0, E0, I0, oldNodes, rs, i, subs);
    StepVirt(virt, virt', E0, I0, oldNodes, |C0|, i, subs);
  }

  /** The points corner i appends are the next step of CutCoords. */
  lemma StepCoords(coords: seq<Vec3>, edges: seq<Edge>, C0: seq<Vec3>, E0: seq<Edge>, I0: seq<seq<nat>>, oldNodes: seq<nat>,
                   rs: Ratios, i: nat, coords': seq<Vec3>)
    requires PassInput(C0, E0, I0, oldNodes) && i < |oldNodes|
    requires coords == CutCoords(C0, E0, I0, oldNodes, i, rs)
    requires |E0| <= |edges| && edges[..|E0|] == CutEdges(E0, I0, oldNodes, i, |C0|) && EndpointsBelow(edges, |coords|)
    requires coords' == coords + CornerPoints(coords, edges, CornerMains(E0, I0, oldNodes, i), oldNodes[i], oldNodes, rs)
    ensures coords' == CutCoords(C0, E0, I0, oldNodes, i + 1, rs)
  {
    var c := i + 1;
    assert c - 1 == i;
    CornerPointsPrefix(coords, edges, |E0|, CornerMains(E0, I0, oldNodes, i), oldNodes[i], oldNodes, rs);
  }

  /** The edges corner i repoints are the next step of CutEdges. */
  lemma StepEdges(coords: seq<Vec3>, edges: seq<Edge>, C0: seq<Vec3>, E0: seq<Edge>, I0: seq<seq<nat>>, oldNodes: seq<nat>,
                  i: nat, edges': seq<Edge>)
    requires PassInput(C0, E0, I0, oldNodes) && i < |oldNodes|
    requires |coords| == |C0| + SubsBefore(E0, I0, oldNodes, i)
    requires |E0| <= |edges| && edges[..|E0|] == CutEdges(E0, I0, oldNodes, i, |C0|)
    requires |edges| <= |edges'| && edges'[..|edges|] == RepointAll(edges, CornerMains(E0, I0, oldNodes, i), oldNodes[i], |coords|)
    ensures edges'[..|E0|] == CutEdges(E0, I0, oldNodes, i + 1, |C0|)
  {
    var c := i + 1;
    var mains, v := CornerMains(E0, I0, oldNodes, i), oldNodes[i];
    assert CutEdges(E0, I0, oldNodes, c, |C0|) == RepointAll(edges[..|E0|], mains, v, |coords|) by {
      assert c - 1 == i;
    }
    calc {
      edges'[..|E0|];
      edges'[..|edges|][..|E0|];
      RepointAll(edges, mains, v, |coords|)[..|E0|];
      { RepointAllPrefix(edges, mains, v, |coords|, |E0|); }
      RepointAll(edges[..|E0|], mains, v, |coords|);
    }
  }

  /** The handles corner i takes are the ones SubsOf names. */
  lemma StepSubs(coords: seq<Vec3>, C0: seq<Vec3>, E0: seq<Edge>, I0: seq<seq<nat>>, oldNodes: seq<nat>,
                 rs: Ratios, i: nat, subs: seq<nat>)
    requires PassInput(C0, E0, I0, oldNodes) && i < |oldNodes|
    requires |coords| == |C0| + SubsBefore(E0, I0, oldNodes, i)
    requires |subs| == |CornerMains(E0, I0, oldNodes, i)| && (forall j | 0 <= j < |subs| :: subs[j] == |coords| + j)
    ensures subs == SubsOf(E0, I0, oldNodes, i, |C0|)
  {
  }

  /** Mapping input node i to its sub-nodes keeps the earlier input
      nodes' sub-nodes, since the input nodes are distinct. */
  lemma StepVirt(virt: map<nat, seq<nat>>, virt': map<nat, seq<nat>>, E0: seq<Edge>, I0: seq<seq<nat>>, oldNodes: seq<nat>, c0: nat, i: nat, subs: seq<nat>)
    requires AllBelow(oldNodes, |I0|) && NoDup(oldNodes) && i < |oldNodes|
    requires forall v | 0 <= v < |I0| :: AllBelow(I0[v], |E0|)
    requires forall a | 0 <= a < i :: VirtAt(virt, E0, I0, oldNodes, a, c0)
    requires subs == SubsOf(E0, I0, oldNodes, i, c0) && virt' == virt[oldNodes[i] := subs]
    ensures forall a | 0 <= a < i + 1 :: VirtAt(virt', E0, I0, oldNodes, a, c0)
  {
    forall a | 0 <= a < i + 1
      ensures VirtAt(virt', E0, I0, oldNodes, a, c0)
    {
      if a < i {
        assert VirtAt(virt, E0, I0, oldNodes, a, c0);
        assert oldNodes[a] != oldNodes[i];
      }
    }
  }
}
