/** The polyhedron of the current version (src/polyhedron.py): its node
    list and face groups over one mesh arena, the edge and triangle
    queries, construction from vertex and face-index lists, and the
    geometric face search. The Chaikin3D pass itself is in chaikin_pass.dfy. */
module Polyhedra {
  import opened Common
  import opened Geometry
  import opened MeshGraph
  import opened ChaikinGroups
  import opened Truncation

  /** Every edge list of the arena holds edge handles below n. */
  predicate ListsBelow(incident: seq<seq<nat>>, n: nat) {
    forall v | 0 <= v < |incident| :: AllBelow(incident[v], n)
  }

  /** The edges of the nodes' edge lists that pass `f`, node after node,
      repetitions included. */
  function EdgesOfNodes(edges: seq<Edge>, incident: seq<seq<nat>>, nodes: seq<nat>, f: EdgeFilter): seq<nat>
    requires AllBelow(nodes, |incident|) && ListsBelow(incident, |edges|)
  {
    if nodes == [] then []
    else
      EdgesOfNodes(edges, incident, nodes[..|nodes| - 1], f)
        + EdgesOfType(edges, incident[nodes[|nodes| - 1]], f)
  }

  /** An edge is gathered exactly when it is in the list of one of the
      nodes and passes the filter. */
  lemma {:induction false} EdgesOfNodesMembers(edges: seq<Edge>, incident: seq<seq<nat>>, nodes: seq<nat>, f: EdgeFilter, e: nat)
    requires AllBelow(nodes, |incident|) && ListsBelow(incident, |edges|)
    ensures e in EdgesOfNodes(edges, incident, nodes, f)
        <==> exists k | 0 <= k < |nodes| :: e in incident[nodes[k]] && edges[e].Matches(f)
  {
    if nodes != [] {
      var init := nodes[..|nodes| - 1];
      EdgesOfNodesMembers(edges, incident, init, f, e);
      ListedSnoc(edges, incident, nodes, f, e);
    }
  }

  /** The node-by-node membership of the last step of EdgesOfNodesMembers. */
  lemma ListedSnoc(edges: seq<Edge>, incident: seq<seq<nat>>, nodes: seq<nat>, f: EdgeFilter, e: nat)
    requires nodes != [] && AllBelow(nodes, |incident|) && ListsBelow(incident, |edges|)
    ensures var init, last := nodes[..|nodes| - 1], nodes[|nodes| - 1];
            ((exists k | 0 <= k < |nodes| :: e in incident[nodes[k]] && edges[e].Matches(f))
             <==> (exists k | 0 <= k < |init| :: e in incident[init[k]] && edges[e].Matches(f))
                  || (e in incident[last] && edges[e].Matches(f)))
  {
    var init := nodes[..|nodes| - 1];
    if exists k | 0 <= k < |nodes| :: e in incident[nodes[k]] && edges[e].Matches(f) {
      var k :| 0 <= k < |nodes| && e in incident[nodes[k]] && edges[e].Matches(f);
      if k < |init| {
        assert init[k] == nodes[k];
      }
    }
    if exists k | 0 <= k < |init| :: e in incident[init[k]] && edges[e].Matches(f) {
      var k :| 0 <= k < |init| && e in incident[init[k]] && edges[e].Matches(f);
      assert init[k] == nodes[k];
    }
  }

  /** The per-node lists `lists(v)` concatenated in node order. */
  function Gather<T>(nodes: seq<nat>, lists: nat -> seq<T>): seq<T> {
    if nodes == [] then [] else Gather(nodes[..|nodes| - 1], lists) + lists(nodes[|nodes| - 1])
  }

  /** `[nodes[index] for index in face]`: None when an index is out of
      range for Python indexing. */
  function FaceNodes(nodes: seq<nat>, face: seq<int>): (r: Option<seq<nat>>)
    ensures r.Some? <==> forall j | 0 <= j < |face| :: PyIndex(|nodes|, face[j]).Some?
    ensures r.Some? ==>
              && |r.value| == |face|
              && forall j | 0 <= j < |face| :: r.value[j] == nodes[PyIndex(|nodes|, face[j]).value]
  {
    if face == [] then Some([])
    else
      match FaceNodes(nodes, face[..|face| - 1])
      case None => None
      case Some(init) =>
        match PyIndex(|nodes|, face[|face| - 1])
        case None => None
        case Some(k) => Some(init + [nodes[k]])
  }

  datatype BuildError = BadIndex | EmptyFace

  /** A face is rejected: an index out of range, or no index at all (the
      cycle connection of an empty group fails). */
  predicate BadFace(nodes: seq<nat>, face: seq<int>) {
    FaceNodes(nodes, face).None? || face == []
  }

  /** What a face group holds once it has been built: the deduplicated
      members, cycle-connected with main edges and ordered along that cycle. */
  ghost predicate FaceGroup(g: Group, edges: seq<Edge>, n: nat, members: seq<nat>)
    reads g
  {
    && g.Valid() && g.Within(n)
    && g.nodes == Dedup(members) && g.ordered && g.triangles == None
    && g.ogroup == CycleOrder(g.nodes)
    && (g.size >= 2 ==> CycleLinked(edges, g.nodes, Main))
  }

  lemma FaceGroupGrows(g: Group, edges: seq<Edge>, bigger: seq<Edge>, n: nat, members: seq<nat>)
    requires FaceGroup(g, edges, n, members) && edges <= bigger
    ensures FaceGroup(g, bigger, n, members)
  {
    if g.size >= 2 {
      CycleLinkedGrows(edges, bigger[|edges|..], g.nodes, Main);
      assert edges + bigger[|edges|..] == bigger;
    }
  }

  /** Face group a was built from the members members[a]. */
  ghost predicate FaceGroups(groups: seq<Group>, edges: seq<Edge>, n: nat, members: seq<seq<nat>>)
    reads groups
  {
    |members| == |groups| && forall a | 0 <= a < |groups| :: FaceGroup(groups[a], edges, n, members[a])
  }

  /** `toConnect` lists, in face order, exactly the groups of more than
      three nodes; idx gives their positions. */
  ghost predicate Selected(groups: seq<Group>, toConnect: seq<Group>, idx: seq<nat>)
    reads groups
  {
    && |idx| == |toConnect|
    && (forall j | 0 <= j < |idx| :: idx[j] < |groups| && toConnect[j] == groups[idx[j]])
    && (forall j1, j2 | 0 <= j1 < j2 < |idx| :: idx[j1] < idx[j2])
    && (forall a | 0 <= a < |groups| :: groups[a].size > 3 <==> a in idx)
  }

  lemma SelectedSnoc(groups: seq<Group>, toConnect: seq<Group>, idx: seq<nat>, g: Group)
    requires Selected(groups, toConnect, idx)
    ensures g.size > 3 ==> Selected(groups + [g], toConnect + [g], idx + [|groups|])
    ensures g.size <= 3 ==> Selected(groups + [g], toConnect, idx)
  {
    var gs := groups + [g];
    var ix := if g.size > 3 then idx + [|groups|] else idx;
    forall a | 0 <= a < |gs|
      ensures gs[a].size > 3 <==> a in ix
    {
      if a < |groups| {
        assert gs[a] == groups[a];
        assert a in ix <==> a in idx;
      }
    }
  }

  lemma AllFaceGroupsGrow(groups: seq<Group>, members: seq<seq<nat>>, edges: seq<Edge>, bigger: seq<Edge>, n: nat)
    requires FaceGroups(groups, edges, n, members) && edges <= bigger
    ensures FaceGroups(groups, bigger, n, members)
  {
    forall a | 0 <= a < |groups|
      ensures FaceGroup(groups[a], bigger, n, members[a])
    {
      FaceGroupGrows(groups[a], edges, bigger, n, members[a]);
    }
  }

  /** The list comprehension `[nodes[index] for index in face]`. */
  method IndexNodes(nodes: seq<nat>, face: seq<int>) returns (r: Option<seq<nat>>)
    ensures r == FaceNodes(nodes, face)
  {
    var members: seq<nat> := [];
    for j := 0 to |face|
      invariant |members| == j
      invariant forall i | 0 <= i < j :: PyIndex(|nodes|, face[i]).Some?
                                         && members[i] == nodes[PyIndex(|nodes|, face[i]).value]
    {
      match PyIndex(|nodes|, face[j])
      case None =>
        return None;
      case Some(k) =>
        members := members + [nodes[k]];
    }
    assert FaceNodes(nodes, face).Some?;
    assert FaceNodes(nodes, face).value == members;
    return Some(members);
  }

  /** One face of `from_standard_vertex_lists`: the group of the indexed
      nodes, `cycle_connect("main")`, then `order()`. */
  method BuildFace(m: Mesh, nodes: seq<nat>, face: seq<int>) returns (r: Result<Group, BuildError>)
    requires m.Valid() && AllBelow(nodes, |m.coords|)
    modifies m
    ensures m.Valid() && m.coords == old(m.coords) && old(m.edges) <= m.edges
    ensures |m.incident| == old(|m.incident|)
    ensures forall e | old(|m.edges|) <= e < |m.edges| :: m.edges[e].kind == Main
    ensures r.Err? <==> BadFace(nodes, face)
    ensures r.Err? ==> r.error == if FaceNodes(nodes, face).None? then BadIndex else EmptyFace
    ensures r.Ok? ==> fresh(r.value) && FaceGroup(r.value, m.edges, |m.coords|, FaceNodes(nodes, face).value)
    ensures m.incident == Attach(old(m.incident), m.edges, old(|m.edges|))
  {
    var indexed := IndexNodes(nodes, face);
    if indexed.None? {
      AttachNone(m.incident, m.edges);
      return Err(BadIndex);
    }
    var members := indexed.value;
    var g := new Group(members);
    AllBelowSubset(g.nodes, members, |m.coords|);
    var c := g.CycleConnect(m, Main);
    if c.Fail? {
      return Err(EmptyFace);
    }
    assert face != [];
    WalkIsCycleOrder(m.edges, g.nodes);
    var o := g.Order(m, false);
    assert o.Pass? && g.ogroup == CycleOrder(g.nodes);
    r := Ok(g);
  }

  /** Both endpoints of `e` are members of one of the groups of more than
      three nodes. */
  ghost predicate InLargeGroup(e: Edge, groups: seq<Group>)
    reads groups
  {
    exists a | 0 <= a < |groups| :: groups[a].size > 3 && e.a in groups[a].nodes && e.b in groups[a].nodes
  }

  /** The same, read off the face member lists: both endpoints of `e` are
      among the members of a face with more than three distinct nodes. */
  ghost predicate InLargeFace(e: Edge, members: seq<seq<nat>>) {
    exists a | 0 <= a < |members| :: |Dedup(members[a])| > 3 && e.a in members[a] && e.b in members[a]
  }

  lemma InLargeFaceGroup(e: Edge, groups: seq<Group>, edges: seq<Edge>, n: nat, members: seq<seq<nat>>)
    requires FaceGroups(groups, edges, n, members) && InLargeFace(e, members)
    ensures InLargeGroup(e, groups)
  {
    var a :| 0 <= a < |members| && |Dedup(members[a])| > 3 && e.a in members[a] && e.b in members[a];
    assert groups[a].size > 3 && e.a in groups[a].nodes && e.b in groups[a].nodes;
  }

  /** `inter_connect("graphical", order_first=True)` on one face group: the
      re-ordering finds the same cycle, and the ladder is added between
      members of the group. */
  method ConnectOne(m: Mesh, g: Group, ghost mem: seq<nat>)
    requires m.Valid() && g.size > 3 && FaceGroup(g, m.edges, |m.coords|, mem)
    modifies m, g
    ensures m.Valid() && m.coords == old(m.coords) && old(m.edges) <= m.edges
    ensures |m.incident| == old(|m.incident|) && g.size == old(g.size)
    ensures FaceGroup(g, m.edges, |m.coords|, mem) && LadderLinked(m.edges, g)
    ensures forall e | old(|m.edges|) <= e < |m.edges| ::
              m.edges[e].kind == Graphical && m.edges[e].a in mem && m.edges[e].b in mem
    ensures m.incident == Attach(old(m.incident), m.edges, old(|m.edges|))
  {
    ghost var before := m.edges;
    CycleConnectedOrders(before, g.nodes);
    var ic := g.InterConnect(m, Graphical, true);
    assert ic.Pass?;
    CycleLinkedGrows(before, m.edges[|before|..], g.nodes, Main);
    assert before + m.edges[|before|..] == m.edges;
  }

  /** The ladders of the first j selected groups are in place, and every
      edge from position lo on is a graphical edge inside a large face. */
  ghost predicate Laddered(groups: seq<Group>, idx: seq<nat>, j: nat, members: seq<seq<nat>>, edges: seq<Edge>, lo: nat)
    reads groups
  {
    && j <= |idx| && (forall i | 0 <= i < |idx| :: idx[i] < |groups|)
    && (forall i | 0 <= i < j :: LadderLinked(edges, groups[idx[i]]))
    && lo <= |edges|
    && forall e | lo <= e < |edges| :: edges[e].kind == Graphical && InLargeFace(edges[e], members)
  }

  /** ConnectOne on face group k of `groups`: the other face groups are
      left as they were. */
  method ConnectFace(m: Mesh, g: Group, groups: seq<Group>, ghost k: nat, ghost members: seq<seq<nat>>)
    requires m.Valid() && k < |groups| && g == groups[k] && g.size > 3
    requires FaceGroups(groups, m.edges, |m.coords|, members) && NoDup(groups)
    modifies m, g
    ensures m.Valid() && m.coords == old(m.coords) && old(m.edges) <= m.edges
    ensures |m.incident| == old(|m.incident|) && g.size == old(g.size)
    ensures FaceGroups(groups, m.edges, |m.coords|, members) && LadderLinked(m.edges, g)
    ensures forall a | 0 <= a < |groups| :: groups[a].size == old(groups[a].size)
    ensures forall a | 0 <= a < |groups| && a != k && old(LadderLinked(m.edges, groups[a])) ::
              LadderLinked(m.edges, groups[a])
    ensures forall e | old(|m.edges|) <= e < |m.edges| ::
              m.edges[e].kind == Graphical && InLargeFace(m.edges[e], members)
    ensures m.incident == Attach(old(m.incident), m.edges, old(|m.edges|))
  {
    ghost var before := m.edges;
    label L:
    ConnectOne(m, g, members[k]);
    forall a | 0 <= a < |groups|
      ensures FaceGroup(groups[a], m.edges, |m.coords|, members[a])
      ensures a != k && old(LadderLinked(m.edges, groups[a])) ==> LadderLinked(m.edges, groups[a])
    {
      if a != k {
        assert old@L(FaceGroup(groups[a], before, |m.coords|, members[a]));
        FaceGroupGrows(groups[a], before, m.edges, |m.coords|, members[a]);
        if old(LadderLinked(m.edges, groups[a])) {
          assert old@L(LadderLinked(before, groups[a]));
          LadderLinkedGrows(before, m.edges, groups[a]);
        }
      }
    }
    assert |Dedup(members[k])| > 3;
  }

  /** One iteration of the second loop of `from_standard_vertex_lists`. */
  method ConnectNext(m: Mesh, groups: seq<Group>, toConnect: seq<Group>, ghost idx: seq<nat>, ghost members: seq<seq<nat>>,
                     j: nat, ghost lo: nat)
    requires m.Valid() && FaceGroups(groups, m.edges, |m.coords|, members)
    requires NoDup(groups) && Selected(groups, toConnect, idx) && j < |toConnect|
    requires Laddered(groups, idx, j, members, m.edges, lo)
    modifies m, toConnect[j]
    ensures m.Valid() && m.coords == old(m.coords) && old(m.edges) <= m.edges
    ensures |m.incident| == old(|m.incident|)
    ensures FaceGroups(groups, m.edges, |m.coords|, members) && Selected(groups, toConnect, idx)
    ensures Laddered(groups, idx, j + 1, members, m.edges, lo)
    ensures m.incident == Attach(old(m.incident), m.edges, old(|m.edges|))
  {
    ghost var k := idx[j];
    ghost var before := m.edges;
    ConnectFace(m, toConnect[j], groups, k, members);
    forall i | 0 <= i < j
      ensures LadderLinked(m.edges, groups[idx[i]])
    {
      assert idx[i] < idx[j];
    }
    forall e | lo <= e < |before|
      ensures m.edges[e].kind == Graphical && InLargeFace(m.edges[e], members)
    {
      assert m.edges[e] == before[e];
    }
  }

  /** The second loop of `from_standard_vertex_lists`: every group of more
      than three nodes, in face order, is re-ordered and given its
      graphical ladder. */
  method ConnectLarge(m: Mesh, groups: seq<Group>, toConnect: seq<Group>, ghost idx: seq<nat>, ghost members: seq<seq<nat>>)
    requires m.Valid() && FaceGroups(groups, m.edges, |m.coords|, members)
    requires NoDup(groups) && Selected(groups, toConnect, idx)
    modifies m, toConnect
    ensures m.Valid() && m.coords == old(m.coords) && old(m.edges) <= m.edges
    ensures |m.incident| == old(|m.incident|)
    ensures FaceGroups(groups, m.edges, |m.coords|, members)
    ensures forall a | 0 <= a < |groups| && groups[a].size > 3 :: LadderLinked(m.edges, groups[a])
    ensures forall e | old(|m.edges|) <= e < |m.edges| ::
              m.edges[e].kind == Graphical && InLargeFace(m.edges[e], members)
    ensures m.incident == Attach(old(m.incident), m.edges, old(|m.edges|))
  {
    ghost var lo := |m.edges|;
    AttachNone(m.incident, m.edges);
    for j := 0 to |toConnect|
      invariant m.Valid() && m.coords == old(m.coords) && old(m.edges) <= m.edges
      invariant |m.incident| == old(|m.incident|)
      invariant FaceGroups(groups, m.edges, |m.coords|, members) && Selected(groups, toConnect, idx)
      invariant Laddered(groups, idx, j, members, m.edges, lo)
      invariant m.incident == Attach(old(m.incident), m.edges, old(|m.edges|))
    {
      ghost var before := m.edges;
      ConnectNext(m, groups, toConnect, idx, members, j, lo);
      AttachTwice(old(m.incident), before, m.edges, old(|m.edges|));
    }
    forall a | 0 <= a < |groups| && groups[a].size > 3
      ensures LadderLinked(m.edges, groups[a])
    {
      var i :| 0 <= i < |idx| && idx[i] == a;
    }
  }

  /** The first line of `from_standard_vertex_lists`: one new node per
      vertex, in order. */
  method AddNodes(m: Mesh, vertices: seq<Vec3>) returns (nodes: seq<nat>)
    requires m.Valid()
    modifies m
    ensures m.Valid() && m.coords == old(m.coords) + vertices && m.edges == old(m.edges)
    ensures nodes == Range(old(|m.coords|), old(|m.coords|) + |vertices|)
    ensures m.incident == old(m.incident) + NoEdges(|vertices|)
  {
    var first := |m.coords|;
    nodes := [];
    assert NoEdges(0) == [];
    for i := 0 to |vertices|
      invariant m.Valid() && |nodes| == i && m.coords == old(m.coords) + vertices[..i]
      invariant forall j | 0 <= j < i :: nodes[j] == first + j
      invariant m.edges == old(m.edges)
      invariant m.incident == old(m.incident) + NoEdges(i)
    {
      var v := m.AddNode(vertices[i]);
      nodes := nodes + [v];
      assert vertices[..i + 1] == vertices[..i] + [vertices[i]];
      assert NoEdges(i + 1) == NoEdges(i) + [[]];
    }
    assert vertices[..|vertices|] == vertices;
  }

  /** Every face of `faces` is good and members[a] lists the nodes of face a. */
  ghost predicate MembersOfFaces(nodes: seq<nat>, faces: seq<seq<int>>, members: seq<seq<nat>>) {
    && |members| == |faces|
    && forall a | 0 <= a < |faces| :: !BadFace(nodes, faces[a]) && members[a] == FaceNodes(nodes, faces[a]).value
  }

  lemma MembersOfFacesSnoc(nodes: seq<nat>, faces: seq<seq<int>>, k: nat, members: seq<seq<nat>>)
    requires k < |faces| && MembersOfFaces(nodes, faces[..k], members) && !BadFace(nodes, faces[k])
    ensures MembersOfFaces(nodes, faces[..k + 1], members + [FaceNodes(nodes, faces[k]).value])
  {
  }

  /** Face k is the first rejected face, and err says why it was rejected. */
  ghost predicate FirstBadFace(nodes: seq<nat>, faces: seq<seq<int>>, k: nat, err: BuildError) {
    && k < |faces| && BadFace(nodes, faces[k])
    && (forall a | 0 <= a < k :: !BadFace(nodes, faces[a]))
    && err == if FaceNodes(nodes, faces[k]).None? then BadIndex else EmptyFace
  }

  lemma FirstBadFaceAt(nodes: seq<nat>, faces: seq<seq<int>>, k: nat, members: seq<seq<nat>>)
    requires k < |faces| && MembersOfFaces(nodes, faces[..k], members) && BadFace(nodes, faces[k])
    ensures FirstBadFace(nodes, faces, k, if FaceNodes(nodes, faces[k]).None? then BadIndex else EmptyFace)
  {
    forall a | 0 <= a < k
      ensures !BadFace(nodes, faces[a])
    {
      assert faces[..k][a] == faces[a];
    }
  }

  /** The state of the face loop once `faces` have been built: one face
      group per face, the groups of more than three nodes set aside. */
  ghost predicate Built(groups: seq<Group>, toConnect: seq<Group>, idx: seq<nat>, members: seq<seq<nat>>,
                        nodes: seq<nat>, faces: seq<seq<int>>, edges: seq<Edge>, n: nat)
    reads groups
  {
    && MembersOfFaces(nodes, faces, members)
    && FaceGroups(groups, edges, n, members)
    && NoDup(groups) && Selected(groups, toConnect, idx)
  }

  lemma BuiltSnoc(groups: seq<Group>, toConnect: seq<Group>, idx: seq<nat>, members: seq<seq<nat>>,
                  nodes: seq<nat>, faces: seq<seq<int>>, k: nat, edges: seq<Edge>, bigger: seq<Edge>, n: nat, g: Group)
    requires k < |faces| && Built(groups, toConnect, idx, members, nodes, faces[..k], edges, n) && edges <= bigger
    requires !BadFace(nodes, faces[k]) && FaceGroup(g, bigger, n, FaceNodes(nodes, faces[k]).value) && g !in groups
    ensures Built(groups + [g], if g.size > 3 then toConnect + [g] else toConnect,
                  if g.size > 3 then idx + [k] else idx, members + [FaceNodes(nodes, faces[k]).value],
                  nodes, faces[..k + 1], bigger, n)
  {
    AllFaceGroupsGrow(groups, members, edges, bigger, n);
    NoDupSnoc(groups, g);
    SelectedSnoc(groups, toConnect, idx, g);
    MembersOfFacesSnoc(nodes, faces, k, members);
  }

  /** Every edge from position lo on is a main edge. */
  ghost predicate MainFrom(edges: seq<Edge>, lo: nat) {
    forall e | lo <= e < |edges| :: edges[e].kind == Main
  }

  /** One iteration of the face loop: face k is built and appended. */
  method AddFace(m: Mesh, nodes: seq<nat>, faces: seq<seq<int>>, k: nat, groups: seq<Group>, toConnect: seq<Group>,
                 ghost idx: seq<nat>, ghost members: seq<seq<nat>>) returns (r: Result<Group, BuildError>)
    requires m.Valid() && AllBelow(nodes, |m.coords|) && k < |faces|
    requires Built(groups, toConnect, idx, members, nodes, faces[..k], m.edges, |m.coords|)
    modifies m
    ensures m.Valid() && m.coords == old(m.coords) && old(m.edges) <= m.edges && MainFrom(m.edges, old(|m.edges|))
    ensures r.Err? <==> BadFace(nodes, faces[k])
    ensures r.Err? ==> FirstBadFace(nodes, faces, k, r.error)
    ensures r.Ok? ==>
              var g := r.value;
              && fresh(g)
              && Built(groups + [g], if g.size > 3 then toConnect + [g] else toConnect,
                       if g.size > 3 then idx + [k] else idx, members + [FaceNodes(nodes, faces[k]).value],
                       nodes, faces[..k + 1], m.edges, |m.coords|)
    ensures m.incident == Attach(old(m.incident), m.edges, old(|m.edges|))
  {
    ghost var before := m.edges;
    r := BuildFace(m, nodes, faces[k]);
    if r.Err? {
      FirstBadFaceAt(nodes, faces, k, members);
    } else {
      BuiltSnoc(groups, toConnect, idx, members, nodes, faces, k, before, m.edges, |m.coords|, r.value);
    }
  }

  /** The face loop of `from_standard_vertex_lists`: one built face group
      per face, in order, and the groups of more than three nodes set aside
      (`toConnect`, at the face positions `idx`). */
  method BuildFaces(m: Mesh, nodes: seq<nat>, faces: seq<seq<int>>)
    returns (r: Result<seq<Group>, BuildError>, toConnect: seq<Group>, ghost idx: seq<nat>, ghost members: seq<seq<nat>>)
    requires m.Valid() && AllBelow(nodes, |m.coords|)
    modifies m
    ensures m.Valid() && m.coords == old(m.coords) && old(m.edges) <= m.edges && MainFrom(m.edges, old(|m.edges|))
    ensures r.Err? <==> exists k | 0 <= k < |faces| :: BadFace(nodes, faces[k])
    ensures r.Err? ==> exists k: nat :: FirstBadFace(nodes, faces, k, r.error)
    ensures r.Ok? ==> fresh(set g | g in r.value) && Built(r.value, toConnect, idx, members, nodes, faces, m.edges, |m.coords|)
    ensures m.incident == Attach(old(m.incident), m.edges, old(|m.edges|))
  {
    var groups: seq<Group> := [];
    toConnect := [];
    idx := [];
    members := [];
    AttachNone(m.incident, m.edges);
    for k := 0 to |faces|
      invariant m.Valid() && m.coords == old(m.coords) && old(m.edges) <= m.edges && MainFrom(m.edges, old(|m.edges|))
      invariant fresh(set g | g in groups)
      invariant Built(groups, toConnect, idx, members, nodes, faces[..k], m.edges, |m.coords|)
      invariant m.incident == Attach(old(m.incident), m.edges, old(|m.edges|))
    {
      ghost var before := m.edges;
      var built := AddFace(m, nodes, faces, k, groups, toConnect, idx, members);
      AttachTwice(old(m.incident), before, m.edges, old(|m.edges|));
      if built.Err? {
        return Err(built.error), toConnect, idx, members;
      }
      var g := built.value;
      if g.size > 3 {
        toConnect := toConnect + [g];
        idx := idx + [k];
      }
      groups := groups + [g];
      members := members + [FaceNodes(nodes, faces[k]).value];
    }
    assert faces[..|faces|] == faces;
    r := Ok(groups);
  }

  /** A polyhedron: its node list and its face groups, over one arena. */
  class Polyhedron {
    const mesh: Mesh
    var nodes: seq<nat>
    var groups: seq<Group>

    ghost predicate Valid()
      reads this, mesh, groups
    {
      && mesh.Valid()
      && NoDup(nodes) && AllBelow(nodes, |mesh.coords|)
      && (forall a | 0 <= a < |groups| :: groups[a].Valid() && groups[a].Within(|mesh.coords|))
      && (forall a, b | 0 <= a < b < |groups| :: groups[a] != groups[b])
    }

    constructor (mesh: Mesh, nodes: seq<nat>, groups: seq<Group>)
      ensures this.mesh == mesh && this.nodes == nodes && this.groups == groups
    {
      this.mesh := mesh;
      this.nodes := nodes;
      this.groups := groups;
    }

    /** `from_standard_vertex_lists(vertices, faces)`: one new node per
        vertex, in order; one group per face, cycle-connected with main
        edges and ordered; then, once every face is in, the graphical ladder
        of each group of more than three nodes. The first face with an index
        out of range or with no index at all aborts the construction. The
        edges added are main edges up to `split`, graphical edges after. */
    static method FromStandardVertexLists(m: Mesh, vertices: seq<Vec3>, faces: seq<seq<int>>)
      returns (r: Result<Polyhedron, BuildError>, ghost split: nat)
      requires m.Valid()
      modifies m
      ensures m.Valid() && m.coords == old(m.coords) + vertices && old(m.edges) <= m.edges
      ensures m.incident == Attach(old(m.incident) + NoEdges(|vertices|), m.edges, old(|m.edges|))
      ensures var nodes := Range(old(|m.coords|), old(|m.coords|) + |vertices|);
              r.Err? <==> exists k | 0 <= k < |faces| :: BadFace(nodes, faces[k])
      ensures var nodes := Range(old(|m.coords|), old(|m.coords|) + |vertices|);
              r.Err? ==> exists k: nat :: FirstBadFace(nodes, faces, k, r.error)
      ensures r.Ok? ==>
                var p := r.value;
                && fresh(p) && p.mesh == m && p.Valid()
                && |p.nodes| == |vertices| && (forall j | 0 <= j < |vertices| :: p.nodes[j] == old(|m.coords|) + j)
                && |p.groups| == |faces|
                && (forall k | 0 <= k < |faces| ::
                      FaceNodes(p.nodes, faces[k]).Some?
                      && FaceGroup(p.groups[k], m.edges, |m.coords|, FaceNodes(p.nodes, faces[k]).value))
                && (forall k | 0 <= k < |faces| && p.groups[k].size > 3 :: LadderLinked(m.edges, p.groups[k]))
                && old(|m.edges|) <= split <= |m.edges|
                && (forall e | old(|m.edges|) <= e < split :: m.edges[e].kind == Main)
                && (forall e | split <= e < |m.edges| ::
                      m.edges[e].kind == Graphical && InLargeGroup(m.edges[e], p.groups))
    {
      var nodes := AddNodes(m, vertices);
      var built, toConnect, idx, members := BuildFaces(m, nodes, faces);
      if built.Err? {
        return Err(built.error), |m.edges|;
      }
      var groups := built.value;
      split := |m.edges|;
      ghost var lists, built' := old(m.incident) + NoEdges(|vertices|), m.edges;
      ConnectLarge(m, groups, toConnect, idx, members);
      AttachTwice(lists, built', m.edges, old(|m.edges|));
      forall e | split <= e < |m.edges|
        ensures InLargeGroup(m.edges[e], groups)
      {
        InLargeFaceGroup(m.edges[e], groups, m.edges, |m.coords|, members);
      }
      var p := new Polyhedron(m, nodes, groups);
      r := Ok(p);
    }

    /** `get_edges(type_)`: the edges of all node edge lists that pass the
        filter, each once, in the order they are first met. */
    method GetEdges(f: EdgeFilter) returns (list: seq<nat>)
      requires Valid()
      ensures list == Dedup(EdgesOfNodes(mesh.edges, mesh.incident, nodes, f))
      ensures NoDup(list)
      ensures forall e: nat :: e in list <==> exists k | 0 <= k < |nodes| :: e in mesh.incident[nodes[k]] && mesh.edges[e].Matches(f)
    {
      list := [];
      var i := 0;
      while i < |nodes|
        invariant 0 <= i <= |nodes|
        invariant list == Dedup(EdgesOfNodes(mesh.edges, mesh.incident, nodes[..i], f))
      {
        var conns := EdgesOfType(mesh.edges, mesh.incident[nodes[i]], f);
        list := AppendNew(list, EdgesOfNodes(mesh.edges, mesh.incident, nodes[..i], f), conns);
        assert nodes[..i + 1][..i] == nodes[..i];
        i := i + 1;
      }
      assert nodes[..i] == nodes;
      forall e: nat
        ensures e in list <==> exists k | 0 <= k < |nodes| :: e in mesh.incident[nodes[k]] && mesh.edges[e].Matches(f)
      {
        EdgesOfNodesMembers(mesh.edges, mesh.incident, nodes, f, e);
      }
    }

    /** `_iter_triangles(type_)`: the triangles each node reports (the node
        query is the parameter `trianglesOf`), each once, in the order they
        are first met. */
    method IterTriangles(trianglesOf: nat -> seq<Triangle<nat>>) returns (set_: seq<Triangle<nat>>)
      ensures set_ == Dedup(Gather(nodes, trianglesOf))
      ensures forall t :: t in set_ <==> exists k | 0 <= k < |nodes| :: t in trianglesOf(nodes[k])
    {
      set_ := [];
      for i := 0 to |nodes|
        invariant set_ == Dedup(Gather(nodes[..i], trianglesOf))
      {
        var ts := trianglesOf(nodes[i]);
        set_ := AppendNew(set_, Gather(nodes[..i], trianglesOf), ts);
        assert nodes[..i + 1][..i] == nodes[..i];
      }
      assert nodes[..|nodes|] == nodes;
      forall t
        ensures t in set_ <==> exists k | 0 <= k < |nodes| :: t in trianglesOf(nodes[k])
      {
        GatherMembers(nodes, trianglesOf, t);
      }
    }
  }

  lemma {:induction false} GatherMembers<T>(nodes: seq<nat>, lists: nat -> seq<T>, t: T)
    ensures t in Gather(nodes, lists) <==> exists k | 0 <= k < |nodes| :: t in lists(nodes[k])
  {
    if nodes != [] {
      var init := nodes[..|nodes| - 1];
      GatherMembers(init, lists, t);
      if exists k | 0 <= k < |init| :: t in lists(init[k]) {
        var k :| 0 <= k < |init| && t in lists(init[k]);
        assert init[k] == nodes[k];
      }
      if exists k | 0 <= k < |nodes| :: t in lists(nodes[k]) {
        var k :| 0 <= k < |nodes| && t in lists(nodes[k]);
        if k < |init| {
          assert init[k] == nodes[k];
        }
      }
    }
  }

  // ---------------------------------------------------------------------
  // Face search by plane

  /** `Plane.from_points(a, b, c)`: the plane through three points; whether
      a point lies on it (within the geometry module's tolerance) is the
      parameter `onPlane` of the search. */
  datatype Plane = Plane(a: Vec3, b: Vec3, c: Vec3)

  /** `_nec_group_cond(group)`: every two members are joined by a main edge. */
  method NecGroupCond(m: Mesh, group: seq<nat>) returns (b: bool)
    ensures b <==> forall i, j | 0 <= i < j < |group| :: Connected(m.edges, group[i], group[j], Main)
  {
    for i := 0 to |group|
      invariant forall i0, j | 0 <= i0 < i && i0 < j < |group| :: Connected(m.edges, group[i0], group[j], Main)
    {
      for j := i + 1 to |group|
        invariant forall j0 | i < j0 < j :: Connected(m.edges, group[i], group[j0], Main)
        invariant forall i0, j0 | 0 <= i0 < i && i0 < j0 < |group| :: Connected(m.edges, group[i0], group[j0], Main)
      {
        if !Connected(m.edges, group[i], group[j], Main) {
          return false;
        }
      }
    }
    return true;
  }

  /** y is the partner of x through one of the main edges in x's edge list. */
  ghost predicate MainStep(edges: seq<Edge>, incident: seq<seq<nat>>, x: nat, y: nat) {
    && x < |incident| && AllBelow(incident[x], |edges|)
    && y in Partners(edges, MainEdges(edges, incident[x]), x)
  }

  /** `path` is a walk the plane search accepts from `visited`: each node is
      new, is not the end node, lies on the plane and steps along a main edge
      to the next one; the last steps to `end`. */
  ghost predicate Trail(edges: seq<Edge>, incident: seq<seq<nat>>, coords: seq<Vec3>, onPlane: (Plane, Vec3) -> bool, plane: Plane,
                        visited: seq<nat>, end: nat, path: seq<nat>)
    decreases |path|
  {
    && |path| >= 1
    && path[0] != end && path[0] !in visited && path[0] < |coords| && onPlane(plane, coords[path[0]])
    && if |path| == 1 then MainStep(edges, incident, path[0], end)
       else MainStep(edges, incident, path[0], path[1])
            && Trail(edges, incident, coords, onPlane, plane, visited + [path[0]], end, path[1..])
  }

  /** g is `visited` extended by a trail that starts at `current`. */
  ghost predicate Reaches(edges: seq<Edge>, incident: seq<seq<nat>>, coords: seq<Vec3>, onPlane: (Plane, Vec3) -> bool, plane: Plane,
                          visited: seq<nat>, end: nat, current: nat, g: seq<nat>)
  {
    exists path | Trail(edges, incident, coords, onPlane, plane, visited, end, path) :: path[0] == current && g == visited + path
  }

  /** What the search started at `current` returns: the visited nodes
      themselves when `current` is the end node, else every extension by a
      trail from `current`. */
  ghost predicate Found(edges: seq<Edge>, incident: seq<seq<nat>>, coords: seq<Vec3>, onPlane: (Plane, Vec3) -> bool, plane: Plane,
                        visited: seq<nat>, end: nat, current: nat, g: seq<nat>)
  {
    if current == end then g == visited else Reaches(edges, incident, coords, onPlane, plane, visited, end, current, g)
  }

  lemma SplitHead(visited: seq<nat>, path: seq<nat>)
    requires |path| >= 1
    ensures visited + path == (visited + [path[0]]) + path[1..]
  {
    assert path == [path[0]] + path[1..];
  }

  /** One level of the search, first half: a trail from `current` is
      `current` followed by the end node or by a trail from one of its main
      partners. */
  lemma ReachesStepDown(edges: seq<Edge>, incident: seq<seq<nat>>, coords: seq<Vec3>, onPlane: (Plane, Vec3) -> bool, plane: Plane,
                        visited: seq<nat>, end: nat, current: nat, g: seq<nat>)
    requires current < |incident| && AllBelow(incident[current], |edges|)
    requires Reaches(edges, incident, coords, onPlane, plane, visited, end, current, g)
    ensures var ps := Partners(edges, MainEdges(edges, incident[current]), current);
            exists c | 0 <= c < |ps| :: Found(edges, incident, coords, onPlane, plane, visited + [current], end, ps[c], g)
  {
    var ps := Partners(edges, MainEdges(edges, incident[current]), current);
    var v1 := visited + [current];
    var path :| Trail(edges, incident, coords, onPlane, plane, visited, end, path) && path[0] == current && g == visited + path;
    if |path| == 1 {
      var c :| 0 <= c < |ps| && ps[c] == end;
      assert g == v1;
      assert Found(edges, incident, coords, onPlane, plane, v1, end, ps[c], g);
    } else {
      var c :| 0 <= c < |ps| && ps[c] == path[1];
      var rest := path[1..];
      assert rest[0] == path[1];
      assert Trail(edges, incident, coords, onPlane, plane, v1, end, rest);
      SplitHead(visited, path);
      assert Reaches(edges, incident, coords, onPlane, plane, v1, end, ps[c], g);
    }
  }

  /** Second half: `current` followed by such a continuation is a trail. */
  lemma ReachesStepUp(edges: seq<Edge>, incident: seq<seq<nat>>, coords: seq<Vec3>, onPlane: (Plane, Vec3) -> bool, plane: Plane,
                      visited: seq<nat>, end: nat, current: nat, g: seq<nat>, c: nat)
    requires current != end && current !in visited && current < |coords| && onPlane(plane, coords[current])
    requires current < |incident| && AllBelow(incident[current], |edges|)
    requires var ps := Partners(edges, MainEdges(edges, incident[current]), current);
             c < |ps| && Found(edges, incident, coords, onPlane, plane, visited + [current], end, ps[c], g)
    ensures Reaches(edges, incident, coords, onPlane, plane, visited, end, current, g)
  {
    var ps := Partners(edges, MainEdges(edges, incident[current]), current);
    var v1 := visited + [current];
    if ps[c] == end {
      assert Trail(edges, incident, coords, onPlane, plane, visited, end, [current]);
      assert g == visited + [current];
    } else {
      var rest :| Trail(edges, incident, coords, onPlane, plane, v1, end, rest) && rest[0] == ps[c] && g == v1 + rest;
      var path := [current] + rest;
      assert path[1..] == rest;
      SplitHead(visited, path);
      assert Trail(edges, incident, coords, onPlane, plane, visited, end, path);
    }
  }

  /** `_rec_find_chaikin_group_with_plane`: the depth-first search of the
      plane faces through `current`; the results are kept once each. */
  method RecFindGroupWithPlane(m: Mesh, start: nat, end: nat, second: nat, current: nat,
                               group: seq<nat>, onPlane: (Plane, Vec3) -> bool, plane: Plane) returns (found: seq<seq<nat>>)
    requires m.Valid() && current < |m.coords|
    ensures NoDup(found)
    ensures current == end ==> found == [group]
    ensures current != end && (current in group || !onPlane(plane, m.coords[current])) ==> found == []
    ensures forall g :: g in found <==> Found(m.edges, m.incident, m.coords, onPlane, plane, group, end, current, g)
    decreases set x | 0 <= x < |m.coords| && x !in group
  {
    if current == end {
      return [group];
    }
    if current in group || !onPlane(plane, m.coords[current]) {
      forall path | Trail(m.edges, m.incident, m.coords, onPlane, plane, group, end, path)
        ensures path[0] != current
      {
      }
      return [];
    }
    var visited := group + [current];
    var mains := EdgesOfType(m.edges, m.incident[current], OnlyType(Main));
    ghost var ps := Partners(m.edges, mains, current);
    found := [];
    for j := 0 to |mains|
      invariant NoDup(found)
      invariant forall g :: g in found <==> exists c | 0 <= c < j :: Found(m.edges, m.incident, m.coords, onPlane, plane, visited, end, ps[c], g)
    {
      var partner := m.edges[mains[j]].Partner(current);
      assert partner == ps[j];
      ghost var unvisited := set x | 0 <= x < |m.coords| && x !in group;
      ghost var unvisited' := set x | 0 <= x < |m.coords| && x !in visited;
      assert unvisited' <= unvisited;
      assert current in unvisited && current !in unvisited';
      var sub := RecFindGroupWithPlane(m, start, end, second, partner, visited, onPlane, plane);
      found := AddUnique(found, sub);
    }
    forall g
      ensures g in found <==> Found(m.edges, m.incident, m.coords, onPlane, plane, group, end, current, g)
    {
      if g in found {
        var c :| 0 <= c < |mains| && Found(m.edges, m.incident, m.coords, onPlane, plane, visited, end, ps[c], g);
        ReachesStepUp(m.edges, m.incident, m.coords, onPlane, plane, group, end, current, g, c);
      }
      if Found(m.edges, m.incident, m.coords, onPlane, plane, group, end, current, g) {
        ReachesStepDown(m.edges, m.incident, m.coords, onPlane, plane, group, end, current, g);
      }
    }
  }

  /** The mesh's handles are consistent: what `Mesh.Valid` guarantees about
      the three tables, as a predicate on values. */
  ghost predicate ArenaOk(edges: seq<Edge>, incident: seq<seq<nat>>, coords: seq<Vec3>) {
    |incident| == |coords| && EndpointsBelow(edges, |coords|) && ListsBelow(incident, |edges|)
  }

  /** The main partners of v, one per main edge of its list, in order. */
  function MainPartners(edges: seq<Edge>, incident: seq<seq<nat>>, v: nat): (r: seq<nat>)
    requires v < |incident| && ListsBelow(incident, |edges|)
    ensures |r| == |MainEdges(edges, incident[v])|
  {
    Partners(edges, MainEdges(edges, incident[v]), v)
  }

  /** g is a face found from `node` by taking the i-th main partner as the
      second node, the j-th (j != i) as the end node, and the k-th main
      partner of the second node as the first step of the search. */
  ghost predicate FoundVia(edges: seq<Edge>, incident: seq<seq<nat>>, coords: seq<Vec3>, onPlane: (Plane, Vec3) -> bool,
                           node: nat, i: nat, j: nat, k: nat, g: seq<nat>)
    requires ArenaOk(edges, incident, coords) && node < |coords|
  {
    var ps := MainPartners(edges, incident, node);
    && i < |ps| && j < |ps| && i != j
    && var second, end := ps[i], ps[j];
       var qs := MainPartners(edges, incident, second);
       && k < |qs|
       && Found(edges, incident, coords, onPlane, Plane(coords[node], coords[second], coords[end]),
                Dedup([end, node, second]), end, qs[k], g)
  }

  /** The innermost loop of `_find_chaikin_groups_for_node`, for one
      (second, end) choice: the faces through each main partner of the
      second node are added to `list`. */
  method SearchPair(m: Mesh, node: nat, i: nat, j: nat, onPlane: (Plane, Vec3) -> bool, list: seq<seq<nat>>)
    returns (r: seq<seq<nat>>)
    requires m.Valid() && node < |m.coords|
    requires i < |MainPartners(m.edges, m.incident, node)| && j < |MainPartners(m.edges, m.incident, node)| && i != j
    requires NoDup(list)
    ensures NoDup(r)
    ensures forall g :: g in r <==> g in list || exists k: nat :: FoundVia(m.edges, m.incident, m.coords, onPlane, node, i, j, k, g)
  {
    var mains := MainEdges(m.edges, m.incident[node]);
    var second := m.edges[mains[i]].Partner(node);
    var end := m.edges[mains[j]].Partner(node);
    var plane := Plane(m.coords[node], m.coords[second], m.coords[end]);
    var subs := MainEdges(m.edges, m.incident[second]);
    ghost var qs := MainPartners(m.edges, m.incident, second);
    assert second == MainPartners(m.edges, m.incident, node)[i];
    assert end == MainPartners(m.edges, m.incident, node)[j];
    r := list;
    for k := 0 to |subs|
      invariant NoDup(r)
      invariant forall g :: g in r <==> g in list || exists k0: nat | k0 < k :: FoundVia(m.edges, m.incident, m.coords, onPlane, node, i, j, k0, g)
    {
      var partner := m.edges[subs[k]].Partner(second);
      assert partner == qs[k];
      var local := RecFindGroupWithPlane(m, node, end, second, partner, Dedup([end, node, second]), onPlane, plane);
      r := AddUnique(r, local);
      forall g
        ensures g in r <==> g in list || exists k0: nat | k0 < k + 1 :: FoundVia(m.edges, m.incident, m.coords, onPlane, node, i, j, k0, g)
      {
        assert g in local <==> FoundVia(m.edges, m.incident, m.coords, onPlane, node, i, j, k, g);
      }
    }
  }

  /** The inner loop of `find_groups_for_node`: every other main partner
      as the end node, with the i-th as the second node. */
  method SearchFrom(m: Mesh, node: nat, i: nat, onPlane: (Plane, Vec3) -> bool, list: seq<seq<nat>>)
    returns (r: seq<seq<nat>>)
    requires m.Valid() && node < |m.coords| && i < |MainPartners(m.edges, m.incident, node)|
    requires NoDup(list)
    ensures NoDup(r)
    ensures forall g :: g in r <==> g in list || exists j: nat, k: nat :: FoundVia(m.edges, m.incident, m.coords, onPlane, node, i, j, k, g)
  {
    var mains := MainEdges(m.edges, m.incident[node]);
    r := list;
    for j := 0 to |mains|
      invariant NoDup(r)
      invariant forall g :: g in r <==> g in list || exists j0: nat, k: nat | j0 < j :: FoundVia(m.edges, m.incident, m.coords, onPlane, node, i, j0, k, g)
    {
      if i != j {
        r := SearchPair(m, node, i, j, onPlane, r);
      }
    }
  }

  /** `_find_chaikin_groups_for_node(node)`: every face found from any
      ordered pair of distinct main edges of the node, each once. */
  method FindGroupsForNode(m: Mesh, node: nat, onPlane: (Plane, Vec3) -> bool) returns (list: seq<seq<nat>>)
    requires m.Valid() && node < |m.coords|
    ensures NoDup(list)
    ensures forall g :: g in list <==> exists i: nat, j: nat, k: nat :: FoundVia(m.edges, m.incident, m.coords, onPlane, node, i, j, k, g)
  {
    var mains := MainEdges(m.edges, m.incident[node]);
    list := [];
    for i := 0 to |mains|
      invariant NoDup(list)
      invariant forall g :: g in list <==> exists i0: nat, j: nat, k: nat | i0 < i :: FoundVia(m.edges, m.incident, m.coords, onPlane, node, i0, j, k, g)
    {
      list := SearchFrom(m, node, i, onPlane, list);
    }
  }
}
