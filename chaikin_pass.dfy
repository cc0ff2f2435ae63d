/** The Chaikin3D pass of the current version (`Polyhedron.Chaikin3D` in
    src/polyhedron.py): every corner of the polyhedron is truncated into a
    group of sub-nodes, every face is rebuilt from the sub-nodes nearest to
    its neighbouring corners, and the rebuilt faces get their graphical
    ladders. */
module ChaikinPass {
  import opened Common
  import opened Geometry
  import opened MeshGraph
  import opened ChaikinGroups
  import opened Truncation
  import opened Polyhedra

  // ---------------------------------------------------------------------
  // Nearest sub-node

  /** The running minimum of the resurfacing loop: the candidate met first
      among those at the smallest distance to `target`; None when there is
      no candidate (the minimum is still infinite). */
  function Closest(coords: seq<Vec3>, cands: seq<nat>, target: Vec3): (r: Option<nat>)
    requires AllBelow(cands, |coords|)
    ensures r.Some? <==> cands != []
    ensures r.Some? ==> r.value in cands
  {
    if cands == [] then None
    else
      var best := Closest(coords, cands[..|cands| - 1], target);
      var last := cands[|cands| - 1];
      if best.None? || SqDist(coords[last], target) < SqDist(coords[best.value], target) then Some(last)
      else best
  }

  /** The candidate at position p is a first minimum: strictly nearer than
      every candidate before it and no farther than any after it. */
  ghost predicate FirstMinimumAt(coords: seq<Vec3>, cands: seq<nat>, target: Vec3, p: nat)
    requires AllBelow(cands, |coords|)
  {
    && p < |cands|
    && (forall q | 0 <= q < p :: SqDist(coords[cands[q]], target) > SqDist(coords[cands[p]], target))
    && (forall q | p <= q < |cands| :: SqDist(coords[cands[q]], target) >= SqDist(coords[cands[p]], target))
  }

  /** The pick is the first candidate at the minimum distance. */
  lemma {:induction false} ClosestIsFirstMinimum(coords: seq<Vec3>, cands: seq<nat>, target: Vec3)
    requires AllBelow(cands, |coords|) && cands != []
    ensures exists p: nat :: FirstMinimumAt(coords, cands, target, p) && cands[p] == Closest(coords, cands, target).value
  {
    var init := cands[..|cands| - 1];
    var last := |cands| - 1;
    var best := Closest(coords, init, target);
    if best.None? {
      assert init == [];
      assert FirstMinimumAt(coords, cands, target, 0);
    } else {
      ClosestIsFirstMinimum(coords, init, target);
      var p: nat :| FirstMinimumAt(coords, init, target, p) && init[p] == best.value;
      FirstMinimumExtends(coords, cands, target, p);
      if SqDist(coords[cands[last]], target) < SqDist(coords[best.value], target) {
        assert FirstMinimumAt(coords, cands, target, last);
      } else {
        assert FirstMinimumAt(coords, cands, target, p);
      }
    }
  }

  /** A first minimum of all candidates but the last is one of all of them
      unless the last is strictly nearer, in which case the last one is. */
  lemma FirstMinimumExtends(coords: seq<Vec3>, cands: seq<nat>, target: Vec3, p: nat)
    requires AllBelow(cands, |coords|) && cands != []
    requires FirstMinimumAt(coords, cands[..|cands| - 1], target, p)
    ensures var d, dLast := SqDist(coords[cands[p]], target), SqDist(coords[cands[|cands| - 1]], target);
            if dLast < d then FirstMinimumAt(coords, cands, target, |cands| - 1)
            else FirstMinimumAt(coords, cands, target, p)
  {
    var init := cands[..|cands| - 1];
    assert forall q | 0 <= q < |init| :: cands[q] == init[q];
  }

  /** The distance loop over the sub-nodes of one corner, against the
      other corner's old position. */
  method ClosestNewNode(m: Mesh, cands: seq<nat>, other: nat) returns (best: Option<nat>)
    requires m.Valid() && AllBelow(cands, |m.coords|) && other < |m.coords|
    ensures best == Closest(m.coords, cands, m.coords[other])
  {
    best := None;
    var minDist: real := 0.0;   // meaningful once `best` is set; before that it is infinite
    for k := 0 to |cands|
      invariant best == Closest(m.coords, cands[..k], m.coords[other])
      invariant best.Some? ==> best.value < |m.coords| && minDist == SqDist(m.coords[best.value], m.coords[other])
    {
      assert cands[..k + 1][..k] == cands[..k];
      var d := SqDist(m.coords[cands[k]], m.coords[other]);
      if best.None? || d < minDist {
        minDist := d;
        best := Some(cands[k]);
      }
    }
    assert cands[..|cands|] == cands;
  }

  // ---------------------------------------------------------------------
  // The surface list of one face

  /** Every sub-node list of the dictionary is made of arena nodes. */
  predicate VirtBelow(virt: map<nat, seq<nat>>, n: nat) {
    forall v | v in virt :: AllBelow(virt[v], n)
  }

  /** Pair i of the resurfacing of an ordered face `og`: the corners
      og[i - 1] (Python indexing, so the last one for i == 0) and og[i]
      each give the sub-node nearest to the other corner. */
  function PairPicks(coords: seq<Vec3>, virt: map<nat, seq<nat>>, og: seq<nat>, i: nat): (r: Result<(nat, nat), PassError>)
    requires i < |og| && AllBelow(og, |coords|) && VirtBelow(virt, |coords|)
    ensures r.Ok? ==>
              var cur, partner := og[PyIndex(|og|, i - 1).value], og[i];
              && cur in virt && partner in virt
              && Closest(coords, virt[cur], coords[partner]) == Some(r.value.0)
              && Closest(coords, virt[partner], coords[cur]) == Some(r.value.1)
              && r.value.0 < |coords| && r.value.1 < |coords|
  {
    var cur, partner := og[PyIndex(|og|, i - 1).value], og[i];
    if cur !in virt then Err(MissingCorner(cur))
    else if partner !in virt then Err(MissingCorner(partner))
    else
      var c1 := Closest(coords, virt[cur], coords[partner]);
      var c2 := Closest(coords, virt[partner], coords[cur]);
      if c1.None? || c2.None? then Err(NoClosestNode)
      else Ok((c1.value, c2.value))
  }

  /** The node list of the rebuilt face after the first `count` pairs: the
      two picks of each pair in turn, or the error of the first pair that
      fails. */
  function SurfaceList(coords: seq<Vec3>, virt: map<nat, seq<nat>>, og: seq<nat>, count: nat): (r: Result<seq<nat>, PassError>)
    requires count <= |og| && AllBelow(og, |coords|) && VirtBelow(virt, |coords|)
    ensures r.Ok? ==> |r.value| == 2 * count && AllBelow(r.value, |coords|)
    ensures r.Ok? ==> forall i | 0 <= i < count :: PairPicks(coords, virt, og, i) == Ok((r.value[2 * i], r.value[2 * i + 1]))
    ensures r.Ok? <==> forall i | 0 <= i < count :: PairPicks(coords, virt, og, i).Ok?
    ensures r.Err? ==> exists i | 0 <= i < count :: PairPicks(coords, virt, og, i) == Err(r.error)
  {
    if count == 0 then Ok([])
    else
      match SurfaceList(coords, virt, og, count - 1)
      case Err(e) => Err(e)
      case Ok(prev) =>
        match PairPicks(coords, virt, og, count - 1)
        case Err(e) => Err(e)
        case Ok(picks) => Ok(prev + [picks.0, picks.1])
  }

  /** A failed prefix makes the whole list fail with the same error. */
  lemma {:induction false} SurfaceListFailure(coords: seq<Vec3>, virt: map<nat, seq<nat>>, og: seq<nat>, i: nat, count: nat)
    requires i <= count <= |og| && AllBelow(og, |coords|) && VirtBelow(virt, |coords|)
    requires SurfaceList(coords, virt, og, i).Err?
    ensures SurfaceList(coords, virt, og, count) == SurfaceList(coords, virt, og, i)
    decreases count - i
  {
    if i < count {
      SurfaceListFailure(coords, virt, og, i, count - 1);
    }
  }

  /** The loop over one old face in the resurfacing phase. */
  method ResurfaceGroup(m: Mesh, virt: map<nat, seq<nat>>, og: seq<nat>, size: nat) returns (r: Result<seq<nat>, PassError>)
    requires m.Valid() && size <= |og| && AllBelow(og, |m.coords|) && VirtBelow(virt, |m.coords|)
    ensures r == SurfaceList(m.coords, virt, og, size)
  {
    var list: seq<nat> := [];
    for i := 0 to size
      invariant SurfaceList(m.coords, virt, og, i) == Ok(list)
    {
      var prev := if i == 0 then |og| - 1 else i - 1;
      assert prev == PyIndex(|og|, i - 1).value;
      var current, partner := og[prev], og[i];
      if current !in virt {
        SurfaceListFailure(m.coords, virt, og, i + 1, size);
        return Err(MissingCorner(current));
      }
      if partner !in virt {
        SurfaceListFailure(m.coords, virt, og, i + 1, size);
        return Err(MissingCorner(partner));
      }
      var c1 := ClosestNewNode(m, virt[current], partner);
      var c2 := ClosestNewNode(m, virt[partner], current);
      if c1.None? || c2.None? {
        SurfaceListFailure(m.coords, virt, og, i + 1, size);
        return Err(NoClosestNode);
      }
      list := list + [c1.value, c2.value];
    }
    r := Ok(list);
  }

  // ---------------------------------------------------------------------
  // Phase 1: one truncated corner per input node

  /** Every typed connection among `nodes` in `edges` is still there in `later`. */
  ghost predicate Keeps(edges: seq<Edge>, later: seq<Edge>, nodes: seq<nat>) {
    forall x, y, t | x in nodes && y in nodes && Connected(edges, x, y, t) :: Connected(later, x, y, t)
  }

  lemma KeepsPrefix(edges: seq<Edge>, later: seq<Edge>, nodes: seq<nat>)
    requires edges <= later
    ensures Keeps(edges, later, nodes)
  {
    forall x, y, t | x in nodes && y in nodes && Connected(edges, x, y, t)
      ensures Connected(later, x, y, t)
    {
      ConnectedPrefix(edges, later, x, y, t);
    }
  }

  /** Truncating the corner v keeps every connection between other nodes. */
  lemma KeepsRepoint(edges: seq<Edge>, mains: seq<nat>, v: nat, first: nat, nodes: seq<nat>)
    requires AllBelow(mains, |edges|) && v !in nodes
    ensures Keeps(edges, RepointAll(edges, mains, v, first), nodes)
  {
    var later := RepointAll(edges, mains, v, first);
    forall x, y, t | x in nodes && y in nodes && Connected(edges, x, y, t)
      ensures Connected(later, x, y, t)
    {
      var e :| 0 <= e < |edges| && edges[e].Joins(x, y, t);
      RepointAllAway(edges, mains, v, first, e);
      assert later[e].Joins(x, y, t);
    }
  }

  /** The corner group of an input node whose sub-nodes are `subs`: the
      sub-nodes in creation order, ordered as `order` orders a cycle,
      cycle-connected by main edges and laddered by graphical ones. */
  ghost predicate CornerOk(g: Group, edges: seq<Edge>, n: nat, subs: seq<nat>)
    reads g
  {
    && g.Valid() && g.Within(n)
    && g.nodes == subs && subs != []
    && g.ordered && g.triangles == None
    && g.ogroup == CycleOrder(subs)
    && (|subs| >= 2 ==> CycleLinked(edges, subs, Main))
    && LadderLinked(edges, g)
  }

  lemma CornerOkKeeps(g: Group, edges: seq<Edge>, later: seq<Edge>, n: nat, n': nat, subs: seq<nat>)
    requires CornerOk(g, edges, n, subs) && Keeps(edges, later, subs) && n <= n'
    ensures CornerOk(g, later, n', subs)
  {
    if |subs| >= 2 {
      forall i | 0 <= i < |subs|
        ensures CycleStep(later, subs, i, Main)
      {
        assert CycleStep(edges, subs, i, Main);
      }
    }
    forall q | q in Ladder(g.size)
      ensures LinkedAt(later, g.ogroup, q, Graphical)
    {
      assert LinkedAt(edges, g.ogroup, q, Graphical);
      assert g.ogroup[q.0] in subs && g.ogroup[q.1] in subs;
    }
  }

  /** The corners built so far, each over its own block of sub-nodes. */
  ghost predicate CornersOk(corners: seq<Group>, blocks: seq<seq<nat>>, edges: seq<Edge>, n: nat)
    reads corners
  {
    && |corners| == |blocks|
    && forall a | 0 <= a < |corners| :: CornerOk(corners[a], edges, n, blocks[a])
  }

  /** Every block lies at or above `lo`. */
  ghost predicate BlocksFrom(blocks: seq<seq<nat>>, lo: nat) {
    forall a, x | 0 <= a < |blocks| && x in blocks[a] :: lo <= x
  }

  /** Truncating an input node below every block keeps the corners built. */
  lemma CornersSurviveTruncation(corners: seq<Group>, blocks: seq<seq<nat>>, edges: seq<Edge>, n: nat,
                                 mains: seq<nat>, v: nat, first: nat, n': nat)
    requires CornersOk(corners, blocks, edges, n) && AllBelow(mains, |edges|)
    requires BlocksFrom(blocks, v + 1) && n <= n'
    ensures CornersOk(corners, blocks, RepointAll(edges, mains, v, first), n')
  {
    forall a | 0 <= a < |corners|
      ensures CornerOk(corners[a], RepointAll(edges, mains, v, first), n', blocks[a])
    {
      KeepsRepoint(edges, mains, v, first, blocks[a]);
      CornerOkKeeps(corners[a], edges, RepointAll(edges, mains, v, first), n, n', blocks[a]);
    }
  }

  /** New edges added after the corners were built keep them. */
  lemma CornersSurviveGrowth(corners: seq<Group>, blocks: seq<seq<nat>>, edges: seq<Edge>, later: seq<Edge>, n: nat)
    requires CornersOk(corners, blocks, edges, n) && edges <= later
    ensures CornersOk(corners, blocks, later, n)
  {
    forall a | 0 <= a < |corners|
      ensures CornerOk(corners[a], later, n, blocks[a])
    {
      KeepsPrefix(edges, later, blocks[a]);
      CornerOkKeeps(corners[a], edges, later, n, n, blocks[a]);
    }
  }

  lemma FlattenSnoc<T>(ss: seq<seq<T>>, s: seq<T>)
    ensures Flatten(ss + [s]) == Flatten(ss) + s
  {
    assert (ss + [s])[..|ss|] == ss;
  }

  lemma CornersOkSnoc(corners: seq<Group>, blocks: seq<seq<nat>>, edges: seq<Edge>, n: nat, g: Group, subs: seq<nat>)
    requires CornersOk(corners, blocks, edges, n) && CornerOk(g, edges, n, subs)
    ensures CornersOk(corners + [g], blocks + [subs], edges, n)
  {
  }

  /** The first i input nodes were truncated: `virt` maps each to its block
      of sub-nodes, and the blocks, concatenated, are `newNodes`, the arena
      handles from c0 up to n. */
  ghost predicate Collected(oldNodes: seq<nat>, i: nat, virt: map<nat, seq<nat>>, newNodes: seq<nat>,
                            blocks: seq<seq<nat>>, c0: nat, n: nat)
  {
    && i == |blocks| && i <= |oldNodes| && c0 <= n
    && (forall x :: x in virt <==> x in oldNodes[..i])
    && (forall a | 0 <= a < i :: virt[oldNodes[a]] == blocks[a])
    && VirtBelow(virt, n) && BlocksFrom(blocks, c0)
    && newNodes == Flatten(blocks)
    && |newNodes| == n - c0
    && (forall j | 0 <= j < |newNodes| :: newNodes[j] == c0 + j)
  }

  /** Truncating input node i, whose sub-nodes are the next handles. */
  lemma CollectedStep(oldNodes: seq<nat>, i: nat, virt: map<nat, seq<nat>>, newNodes: seq<nat>,
                      blocks: seq<seq<nat>>, c0: nat, n: nat, subs: seq<nat>, n': nat)
    requires Collected(oldNodes, i, virt, newNodes, blocks, c0, n) && i < |oldNodes|
    requires NoDup(oldNodes) && AllBelow(oldNodes, c0)
    requires n' == n + |subs| && forall j | 0 <= j < |subs| :: subs[j] == n + j
    ensures BlocksFrom(blocks, oldNodes[i] + 1)
    ensures Collected(oldNodes, i + 1, virt[oldNodes[i] := subs], newNodes + subs, blocks + [subs], c0, n')
  {
    assert oldNodes[i] < c0;
    FlattenSnoc(blocks, subs);
    VirtStep(oldNodes, i, virt, blocks, n, subs, n');
    BlocksFromSnoc(blocks, subs, c0, n);
    CountingSnoc(newNodes, subs, c0, n);
  }

  lemma BlocksFromSnoc(blocks: seq<seq<nat>>, subs: seq<nat>, c0: nat, n: nat)
    requires BlocksFrom(blocks, c0) && c0 <= n && forall j | 0 <= j < |subs| :: subs[j] == n + j
    ensures BlocksFrom(blocks + [subs], c0)
  {
    forall a, x | 0 <= a < |blocks + [subs]| && x in (blocks + [subs])[a]
      ensures c0 <= x
    {
      if a == |blocks| {
        var j :| 0 <= j < |subs| && subs[j] == x;
      }
    }
  }

  lemma CountingSnoc(newNodes: seq<nat>, subs: seq<nat>, c0: nat, n: nat)
    requires |newNodes| == n - c0 && forall j | 0 <= j < |newNodes| :: newNodes[j] == c0 + j
    requires forall j | 0 <= j < |subs| :: subs[j] == n + j
    ensures forall j | 0 <= j < |newNodes + subs| :: (newNodes + subs)[j] == c0 + j
  {
  }

  lemma VirtStep(oldNodes: seq<nat>, i: nat, virt: map<nat, seq<nat>>, blocks: seq<seq<nat>>,
                 n: nat, subs: seq<nat>, n': nat)
    requires i == |blocks| && i < |oldNodes| && NoDup(oldNodes) && n <= n' && AllBelow(subs, n')
    requires forall x :: x in virt <==> x in oldNodes[..i]
    requires forall a | 0 <= a < i :: virt[oldNodes[a]] == blocks[a]
    requires VirtBelow(virt, n)
    ensures var virt' := virt[oldNodes[i] := subs];
            && (forall x :: x in virt' <==> x in oldNodes[..i + 1])
            && (forall a | 0 <= a < i + 1 :: virt'[oldNodes[a]] == (blocks + [subs])[a])
            && VirtBelow(virt', n')
  {
    assert forall a | 0 <= a < i :: oldNodes[a] != oldNodes[i];
    PrefixSnoc(oldNodes, i);
    var virt' := virt[oldNodes[i] := subs];
    forall x | x in virt'
      ensures AllBelow(virt'[x], n')
    {
      if x != oldNodes[i] {
        assert AllBelow(virt[x], n);
      }
    }
  }

  /** One iteration of the first loop: the corner at v is truncated and
      its sub-nodes grouped; the corners built before survive. */
  method TruncateOne(m: Mesh, oldNodes: seq<nat>, v: nat, rs: Ratios,
                     ghost corners: seq<Group>, ghost blocks: seq<seq<nat>>)
    returns (r: Result<(Group, seq<nat>), PassError>)
    requires m.Valid() && v < |m.coords|
    requires CornersOk(corners, blocks, m.edges, |m.coords|) && BlocksFrom(blocks, v + 1)
    modifies m
    ensures m.Valid()
    ensures r.Err? <==> CornerFails(old(m.edges), old(m.incident[v]))
    ensures r.Err? ==> (r.error.UnknownEdgeType? <==> HasUnknownEdge(old(m.edges), old(m.incident[v])))
    ensures r.Err? ==> r.error.UnknownEdgeType? || r.error == GroupFailure(EmptyGroup)
    ensures r.Ok? ==>
              var (g, subs) := r.value;
              var mains := MainEdges(old(m.edges), old(m.incident[v]));
              && fresh(g)
              && |subs| == |mains| && (forall j | 0 <= j < |subs| :: subs[j] == old(|m.coords|) + j)
              && m.coords == old(m.coords) + CornerPoints(old(m.coords), old(m.edges), mains, v, oldNodes, rs)
              && old(|m.edges|) <= |m.edges|
              && m.edges[..old(|m.edges|)] == RepointAll(old(m.edges), mains, v, old(|m.coords|))
              && m.incident == Attach(old(m.incident) + Singletons(mains), m.edges, old(|m.edges|))
              && (forall x | 0 <= x < old(|m.coords|) :: m.incident[x] == old(m.incident[x]))
              && CornersOk(corners, blocks, m.edges, |m.coords|)
              && CornerOk(g, m.edges, |m.coords|, subs)
  {
    ghost var E1, n1 := m.edges, |m.coords|;
    ghost var mains := MainEdges(m.edges, m.incident[v]);
    var t := TruncateCorner(m, oldNodes, v, rs);
    if t.Err? {
      return Err(UnknownEdgeType(t.error));
    }
    var subs := t.value;
    assert NoDup(subs) && AllBelow(subs, |m.coords|);
    CornersSurviveTruncation(corners, blocks, E1, n1, mains, v, n1, |m.coords|);
    ghost var E2, I2 := m.edges, m.incident;
    var cg := CornerGroup(m, subs);
    if cg.Err? {
      return Err(cg.error);
    }
    CornersSurviveGrowth(corners, blocks, E2, m.edges, |m.coords|);
    assert m.edges[..|E2|] == E2;
    AttachBelow(I2, m.edges, |E2|, n1);
    r := Ok((cg.value, subs));
  }

  lemma BlocksFromLower(blocks: seq<seq<nat>>, lo: nat, lo': nat)
    requires BlocksFrom(blocks, lo) && lo' <= lo
    ensures BlocksFrom(blocks, lo')
  {
  }

  /** What TruncateOne leaves on success, read as one more round of the
      first loop. */
  lemma CornerStep(C1: seq<Vec3>, E1: seq<Edge>, I1: seq<seq<nat>>, virt: map<nat, seq<nat>>, i: nat,
                   C0: seq<Vec3>, E0: seq<Edge>, I0: seq<seq<nat>>, oldNodes: seq<nat>, rs: Ratios,
                   newNodes: seq<nat>, blocks: seq<seq<nat>>,
                   coords': seq<Vec3>, edges': seq<Edge>, incident': seq<seq<nat>>, subs: seq<nat>)
    requires FirstCorners(C1, E1, I1, virt, i, C0, E0, I0, oldNodes, rs) && i < |oldNodes|
    requires Collected(oldNodes, i, virt, newNodes, blocks, |C0|, |C1|)
    requires EndpointsBelow(E1, |C1|) && oldNodes[i] < |C1| <= |I1| && |C1| <= |incident'|
    requires AllBelow(I1[oldNodes[i]], |E1|)
    requires !CornerFails(E1, I1[oldNodes[i]])
    requires var mains := MainEdges(E1, I1[oldNodes[i]]);
             && |subs| == |mains| && (forall j | 0 <= j < |subs| :: subs[j] == |C1| + j)
             && coords' == C1 + CornerPoints(C1, E1, mains, oldNodes[i], oldNodes, rs)
             && |E1| <= |edges'| && edges'[..|E1|] == RepointAll(E1, mains, oldNodes[i], |C1|)
             && (forall x | 0 <= x < |C1| :: incident'[x] == I1[x])
    ensures FirstCorners(coords', edges', incident', virt[oldNodes[i] := subs], i + 1, C0, E0, I0, oldNodes, rs)
    ensures Collected(oldNodes, i + 1, virt[oldNodes[i] := subs], newNodes + subs, blocks + [subs], |C0|, |coords'|)
  {
    FirstCornersRead(C1, E1, I1, virt, i, C0, E0, I0, oldNodes, rs);
    FirstCornersStep(C1, E1, I1, virt, i, C0, E0, I0, oldNodes, rs, coords', edges', incident', subs);
    CollectedStep(oldNodes, i, virt, newNodes, blocks, |C0|, |C1|, subs, |coords'|);
  }

  /** The body of the first loop for input node i: truncate it and group
      its sub-nodes, extending what the first i corners established. */
  method TruncateNext(m: Mesh, oldNodes: seq<nat>, i: nat, rs: Ratios, ghost c0: nat,
                      ghost C0: seq<Vec3>, ghost E0: seq<Edge>, ghost I0: seq<seq<nat>>, ghost corners: seq<Group>,
                      ghost virt: map<nat, seq<nat>>, ghost newNodes: seq<nat>, ghost blocks: seq<seq<nat>>)
    returns (r: Result<(Group, seq<nat>), PassError>)
    requires m.Valid() && i < |oldNodes| && c0 == |C0|
    requires CornersOk(corners, blocks, m.edges, |m.coords|)
    requires Collected(oldNodes, i, virt, newNodes, blocks, c0, |m.coords|)
    requires FirstCorners(m.coords, m.edges, m.incident, virt, i, C0, E0, I0, oldNodes, rs)
    modifies m
    ensures m.Valid()
    ensures r.Err? ==> r.error.UnknownEdgeType? || r.error == GroupFailure(EmptyGroup)
    ensures r.Err? <==> CornerFails(E0, I0[oldNodes[i]])
    ensures r.Err? ==> (r.error.UnknownEdgeType? <==> HasUnknownEdge(E0, I0[oldNodes[i]]))
    ensures r.Err? ==> FirstFailureAt(E0, I0, oldNodes, i)
    ensures r.Ok? ==>
              var (g, subs) := r.value;
              && fresh(g) && old(m.coords) <= m.coords
              && CornersOk(corners + [g], blocks + [subs], m.edges, |m.coords|)
              && Collected(oldNodes, i + 1, virt[oldNodes[i] := subs], newNodes + subs, blocks + [subs], c0, |m.coords|)
              && FirstCorners(m.coords, m.edges, m.incident, virt[oldNodes[i] := subs], i + 1, C0, E0, I0, oldNodes, rs)
  {
    var v := oldNodes[i];
    ghost var C1, E1, I1 := m.coords, m.edges, m.incident;
    FirstCornersRead(C1, E1, I1, virt, i, C0, E0, I0, oldNodes, rs);
    BlocksFromLower(blocks, c0, v + 1);
    r := TruncateOne(m, oldNodes, v, rs, corners, blocks);
    if r.Err? {
      CornersPassMeaning(E0, I0, oldNodes, i);
      return;
    }
    var (g, subs) := r.value;
    CornerStep(C1, E1, I1, virt, i, C0, E0, I0, oldNodes, rs, newNodes, blocks, m.coords, m.edges, m.incident, subs);
    assert CornersOk(corners + [g], blocks + [subs], m.edges, |m.coords|) by {
      CornersOkSnoc(corners, blocks, m.edges, |m.coords|, g, subs);
    }
  }

  /** The first loop of the pass: each input node in turn is truncated and
      its sub-nodes grouped; `virt` maps it to its sub-nodes and `newNodes`
      collects them all, in order. */
  method TruncateAll(m: Mesh, oldNodes: seq<nat>, rs: Ratios)
    returns (r: Outcome<PassError>, corners: seq<Group>, virt: map<nat, seq<nat>>,
             newNodes: seq<nat>, ghost blocks: seq<seq<nat>>, ghost failed: nat)
    requires m.Valid() && NoDup(oldNodes) && AllBelow(oldNodes, |m.coords|)
    modifies m
    ensures m.Valid()
    ensures r.Fail? ==> r.error.UnknownEdgeType? || r.error == GroupFailure(EmptyGroup)
    ensures r.Fail? ==>
              && FirstFailureAt(old(m.edges), old(m.incident), oldNodes, failed)
              && (r.error.UnknownEdgeType? <==> HasUnknownEdge(old(m.edges), old(m.incident)[oldNodes[failed]]))
    ensures r.Pass? ==> CornersPass(old(m.edges), old(m.incident), oldNodes, |oldNodes|)
    ensures r.Pass? ==>
              && old(m.coords) <= m.coords
              && |corners| == |oldNodes| && NoDup(corners)
              && fresh(set g | g in corners)
              && CornersOk(corners, blocks, m.edges, |m.coords|)
              && Collected(oldNodes, |oldNodes|, virt, newNodes, blocks, old(|m.coords|), |m.coords|)
              && CutAsSpecified(m.coords, m.edges, virt, old(m.coords), old(m.edges), old(m.incident), oldNodes, rs)
  {
    ghost var c0 := |m.coords|;
    ghost var C0, E0, I0 := m.coords, m.edges, m.incident;
    assert m.edges[..|E0|] == E0;
    corners, virt, newNodes, blocks := [], map[], [], [];
    for i := 0 to |oldNodes|
      invariant m.Valid() && old(m.coords) <= m.coords
      invariant |corners| == i && NoDup(corners)
      invariant fresh(set g | g in corners)
      invariant CornersOk(corners, blocks, m.edges, |m.coords|)
      invariant Collected(oldNodes, i, virt, newNodes, blocks, c0, |m.coords|)
      invariant FirstCorners(m.coords, m.edges, m.incident, virt, i, C0, E0, I0, oldNodes, rs)
    {
      var one := TruncateNext(m, oldNodes, i, rs, c0, C0, E0, I0, corners, virt, newNodes, blocks);
      if one.Err? {
        return Fail(one.error), corners, virt, newNodes, blocks, i;
      }
      var (g, subs) := one.value;
      assert g !in corners;
      NoDupSnoc(corners, g);
      corners, virt, newNodes, blocks := corners + [g], virt[oldNodes[i] := subs], newNodes + subs, blocks + [subs];
    }
    assert CornersPass(E0, I0, oldNodes, |oldNodes|) by {
      CornersPassMeaning(E0, I0, oldNodes, |oldNodes|);
    }
    r, failed := Pass, 0;
  }

  // ---------------------------------------------------------------------
  // Phase 2: one rebuilt face per old face

  /** The rebuilt face of an old face ordered as `og` with `size` members:
      its cycle is the surface list, taken as already ordered, and its
      members that list deduplicated. */
  ghost predicate SurfaceOk(s: Group, coords: seq<Vec3>, virt: map<nat, seq<nat>>, og: seq<nat>, size: nat)
    reads s
  {
    && size <= |og| && AllBelow(og, |coords|) && VirtBelow(virt, |coords|)
    && SurfaceList(coords, virt, og, size) == Ok(s.ogroup)
    && s.Valid() && s.Within(|coords|)
    && s.ordered && s.nodes == Dedup(s.ogroup) && s.triangles == None
  }

  /** What the resurfacing loop reads of an old face: its members, whether
      it is ordered, its cycle and its size. */
  datatype Face = Face(nodes: seq<nat>, ordered: bool, ogroup: seq<nat>, size: nat)
  {
    /** The shape of a valid group. */
    predicate Valid() {
      && size == |nodes|
      && NoDup(nodes)
      && (ordered ==> size <= |ogroup|)
      && (forall x | x in ogroup :: x in nodes)
    }
  }

  function FaceOf(g: Group): (f: Face)
    reads g
    ensures g.Valid() ==> f.Valid()
    ensures f.nodes == g.nodes && f.size == g.size
  {
    Face(g.nodes, g.ordered, g.ogroup, g.size)
  }

  /** The faces of a list of groups, as they are in the current state. */
  function FacesOf(gs: seq<Group>): (r: seq<Face>)
    reads gs
    ensures |r| == |gs| && forall a | 0 <= a < |gs| :: r[a] == FaceOf(gs[a])
    ensures forall a, n {:trigger AllBelow(r[a].nodes, n)} | 0 <= a < |gs| && gs[a].Within(n) :: AllBelow(r[a].nodes, n)
  {
    seq(|gs|, a requires 0 <= a < |gs| reads gs => FaceOf(gs[a]))
  }

  /** The cycle a face is resurfaced along: its own when it is ordered
      already, the one `order()` walks otherwise. It has at least as many
      entries as the face has members, all of them members. */
  function FaceCycle(edges: seq<Edge>, f: Face): (og: seq<nat>)
    requires f.Valid()
    ensures f.size <= |og|
    ensures forall x | x in og :: x in f.nodes
  {
    if f.ordered then f.ogroup
    else if |f.nodes| < 3 then OrderedWalk(edges, f.nodes).0
    else
      OrderedWalkMeaning(edges, f.nodes);
      MembersOfPermutation(OrderedWalk(edges, f.nodes).0, f.nodes);
      OrderedWalk(edges, f.nodes).0
  }

  /** One iteration of the resurfacing loop, on values: an unordered face
      whose walk breaks fails in `order()`; otherwise the surface list along
      its cycle, which has two picks per member or fails on a corner with
      no sub-nodes. */
  function FaceSurface(coords: seq<Vec3>, edges: seq<Edge>, virt: map<nat, seq<nat>>, f: Face)
    : (r: Result<seq<nat>, PassError>)
    requires f.Valid() && AllBelow(f.nodes, |coords|) && VirtBelow(virt, |coords|)
    ensures r.Ok? ==> |r.value| == 2 * f.size
    ensures r.Err? && r.error.GroupFailure? <==> !f.ordered && !OrderedWalk(edges, f.nodes).1
    ensures r.Err? ==> r.error == GroupFailure(BrokenGroup) || r.error.MissingCorner? || r.error == NoClosestNode
  {
    if !f.ordered && !OrderedWalk(edges, f.nodes).1 then Err(GroupFailure(BrokenGroup))
    else
      var og := FaceCycle(edges, f);
      AllBelowSubset(og, f.nodes, |coords|);
      SurfaceList(coords, virt, og, f.size)
  }

  /** Each face's surface list, in order. */
  function FaceSurfaces(coords: seq<Vec3>, edges: seq<Edge>, virt: map<nat, seq<nat>>, faces: seq<Face>)
    : (rs: seq<Result<seq<nat>, PassError>>)
    requires VirtBelow(virt, |coords|)
    requires forall a | 0 <= a < |faces| :: faces[a].Valid()
    requires forall a | 0 <= a < |faces| :: AllBelow(faces[a].nodes, |coords|)
    ensures |rs| == |faces| && forall a | 0 <= a < |faces| :: rs[a] == FaceSurface(coords, edges, virt, faces[a])
  {
    seq(|faces|, a requires 0 <= a < |faces| => FaceSurface(coords, edges, virt, faces[a]))
  }

  /** The second loop of the pass, on values: the error of the first old
      face that cannot be resurfaced, or Pass. */
  function ResurfaceRun(coords: seq<Vec3>, edges: seq<Edge>, virt: map<nat, seq<nat>>, faces: seq<Face>)
    : (r: Outcome<PassError>)
    requires VirtBelow(virt, |coords|)
    requires forall a | 0 <= a < |faces| :: faces[a].Valid()
    requires forall a | 0 <= a < |faces| :: AllBelow(faces[a].nodes, |coords|)
    ensures r.Pass? <==> forall a | 0 <= a < |faces| :: FaceSurface(coords, edges, virt, faces[a]).Ok?
    ensures r.Fail? ==> exists k | 0 <= k < |faces| ::
              && (forall a | 0 <= a < k :: FaceSurface(coords, edges, virt, faces[a]).Ok?)
              && FaceSurface(coords, edges, virt, faces[k]) == Err(r.error)
  {
    FirstError(FaceSurfaces(coords, edges, virt, faces))
  }

  /** The second loop stops at the first face that cannot be resurfaced. */
  lemma ResurfaceRunStops(coords: seq<Vec3>, edges: seq<Edge>, virt: map<nat, seq<nat>>, faces: seq<Face>, k: nat)
    requires VirtBelow(virt, |coords|)
    requires forall a | 0 <= a < |faces| :: faces[a].Valid()
    requires forall a | 0 <= a < |faces| :: AllBelow(faces[a].nodes, |coords|)
    requires k < |faces| && FaceSurface(coords, edges, virt, faces[k]).Err?
    requires forall a | 0 <= a < k :: FaceSurface(coords, edges, virt, faces[a]).Ok?
    ensures ResurfaceRun(coords, edges, virt, faces) == Fail(FaceSurface(coords, edges, virt, faces[k]).error)
  {
    FirstErrorAt(FaceSurfaces(coords, edges, virt, faces), k);
  }

  /** What the second and third loops come to: Pass exactly when every old
      face can be resurfaced and none is empty; otherwise the error of the
      first face that cannot be resurfaced or, when all can, the logarithm
      of zero on an empty one. The faces are valid and lie in the arena. */
  ghost predicate ResurfacesTo(r: Outcome<PassError>, coords: seq<Vec3>, edges: seq<Edge>, virt: map<nat, seq<nat>>, faces: seq<Face>)
  {
    && VirtBelow(virt, |coords|)
    && (forall a | 0 <= a < |faces| :: faces[a].Valid() && AllBelow(faces[a].nodes, |coords|))
    && (r.Pass? <==> forall a | 0 <= a < |faces| ::
              FaceSurface(coords, edges, virt, faces[a]).Ok? && faces[a].size > 0)
    && (r.Fail? ==>
              || (exists k | 0 <= k < |faces| ::
                    && (forall a | 0 <= a < k :: FaceSurface(coords, edges, virt, faces[a]).Ok?)
                    && FaceSurface(coords, edges, virt, faces[k]) == Err(r.error))
              || (&& r.error == GroupFailure(LogOfZero)
                  && (forall a | 0 <= a < |faces| :: FaceSurface(coords, edges, virt, faces[a]).Ok?)
                  && exists a | 0 <= a < |faces| :: faces[a].size == 0))
  }

  /** The second and third loops, on values: the first face that cannot be
      resurfaced fails the pass; if all can, an empty face fails the third
      loop on the logarithm of zero. */
  function ResurfaceOutcome(coords: seq<Vec3>, edges: seq<Edge>, virt: map<nat, seq<nat>>, faces: seq<Face>)
    : (r: Outcome<PassError>)
    requires VirtBelow(virt, |coords|)
    requires forall a | 0 <= a < |faces| :: faces[a].Valid()
    requires forall a | 0 <= a < |faces| :: AllBelow(faces[a].nodes, |coords|)
    ensures ResurfacesTo(r, coords, edges, virt, faces)
  {
    var run := ResurfaceRun(coords, edges, virt, faces);
    if run.Fail? then run
    else if forall a | 0 <= a < |faces| :: faces[a].size > 0 then Pass
    else Fail(GroupFailure(LogOfZero))
  }

  /** One iteration of the resurfacing loop: `order()` the old face (a
      no-op when it is ordered already), then build its surface group. */
  method ResurfaceOne(m: Mesh, virt: map<nat, seq<nat>>, g: Group) returns (r: Result<Group, PassError>)
    requires m.Valid() && g.Valid() && g.Within(|m.coords|) && VirtBelow(virt, |m.coords|)
    modifies g
    ensures g.Valid() && g.nodes == old(g.nodes) && g.size == old(g.size) && g.triangles == old(g.triangles)
    ensures AllBelow(g.ogroup, |m.coords|)
    ensures old(g.ordered) ==> g.ogroup == old(g.ogroup)
    ensures !old(g.ordered) ==> g.ogroup == OrderedWalk(m.edges, g.nodes).0
    ensures r.Err? && r.error.GroupFailure? <==> !old(g.ordered) && !OrderedWalk(m.edges, g.nodes).1
    ensures r.Err? && !r.error.GroupFailure? ==>
              g.ordered && SurfaceList(m.coords, virt, g.ogroup, g.size) == Err(r.error)
    ensures r.Ok? ==> g.ordered && fresh(r.value) && SurfaceOk(r.value, m.coords, virt, g.ogroup, g.size)
    ensures FaceSurface(m.coords, m.edges, virt, old(FaceOf(g))) == if r.Ok? then Ok(r.value.ogroup) else Err(r.error)
  {
    var o := g.Order(m, false);
    AllBelowSubset(g.ogroup, g.nodes, |m.coords|);
    if o.Fail? {
      return Err(GroupFailure(o.error));
    }
    var list := ResurfaceGroup(m, virt, g.ogroup, g.size);
    if list.Err? {
      return Err(list.error);
    }
    var s := new Group(list.value);
    s.ordered := true;
    s.ogroup := list.value;
    AllBelowSubset(s.nodes, s.ogroup, |m.coords|);
    r := Ok(s);
  }

  /** The surfaces built for the first |surfaces| old faces. */
  ghost predicate SurfacesOk(surfaces: seq<Group>, oldGroups: seq<Group>, coords: seq<Vec3>, virt: map<nat, seq<nat>>)
    reads surfaces, oldGroups
  {
    && |surfaces| <= |oldGroups|
    && forall a | 0 <= a < |surfaces| ::
         && oldGroups[a].Valid() && oldGroups[a].ordered
         && SurfaceOk(surfaces[a], coords, virt, oldGroups[a].ogroup, oldGroups[a].size)
  }

  /** A rebuilt face is empty exactly when its old face is. */
  lemma SurfaceNonEmpty(s: Group, coords: seq<Vec3>, virt: map<nat, seq<nat>>, og: seq<nat>, size: nat)
    requires SurfaceOk(s, coords, virt, og, size)
    ensures s.size > 0 <==> size > 0
  {
    if size > 0 {
      assert s.ogroup[0] in s.nodes;
    }
  }

  /** The surfaces built so far, each from the face it was built for, as
      that face is once ordered. */
  ghost predicate SurfacesBuilt(surfaces: seq<Group>, done: seq<Face>, coords: seq<Vec3>, virt: map<nat, seq<nat>>)
    reads surfaces
  {
    && |surfaces| == |done|
    && forall a | 0 <= a < |done| ::
         done[a].Valid() && done[a].ordered && SurfaceOk(surfaces[a], coords, virt, done[a].ogroup, done[a].size)
  }

  lemma SurfacesBuiltSnoc(surfaces: seq<Group>, done: seq<Face>, s: Group, f: Face, coords: seq<Vec3>, virt: map<nat, seq<nat>>)
    requires SurfacesBuilt(surfaces, done, coords, virt)
    requires f.Valid() && f.ordered && SurfaceOk(s, coords, virt, f.ogroup, f.size)
    ensures SurfacesBuilt(surfaces + [s], done + [f], coords, virt)
  {
    var t, d := surfaces + [s], done + [f];
    forall a | 0 <= a < |d|
      ensures d[a].Valid() && d[a].ordered && SurfaceOk(t[a], coords, virt, d[a].ogroup, d[a].size)
    {
      if a < |done| {
        assert t[a] == surfaces[a] && d[a] == done[a];
      }
    }
  }

  /** Once every old face is ordered as recorded, the surfaces built from
      the records are the surfaces of the old faces. */
  lemma SurfacesOkFrom(surfaces: seq<Group>, oldGroups: seq<Group>, done: seq<Face>, coords: seq<Vec3>,
                       virt: map<nat, seq<nat>>)
    requires SurfacesBuilt(surfaces, done, coords, virt) && |done| == |oldGroups|
    requires forall a | 0 <= a < |oldGroups| :: FaceOf(oldGroups[a]) == done[a]
    ensures SurfacesOk(surfaces, oldGroups, coords, virt)
    ensures forall a | 0 <= a < |oldGroups| :: oldGroups[a].size == done[a].size
  {
    forall a | 0 <= a < |surfaces|
      ensures oldGroups[a].Valid() && oldGroups[a].ordered
      ensures SurfaceOk(surfaces[a], coords, virt, oldGroups[a].ogroup, oldGroups[a].size)
    {
      assert FaceOf(oldGroups[a]) == done[a];
    }
  }

  /** The old faces as the second loop leaves them: those it is done with
      as recorded in `done`, the rest as they were. */
  ghost predicate FacesNow(oldGroups: seq<Group>, done: seq<Face>, faces: seq<Face>)
    reads oldGroups
  {
    && |done| <= |oldGroups| == |faces|
    && (forall a | 0 <= a < |done| :: FaceOf(oldGroups[a]) == done[a])
    && (forall a | |done| <= a < |oldGroups| :: FaceOf(oldGroups[a]) == faces[a])
  }

  /** One turn of the second loop: the first old face not yet done is
      ordered and resurfaced; on success it is done, as it is now. */
  method ResurfaceNext(m: Mesh, oldGroups: seq<Group>, virt: map<nat, seq<nat>>, k: nat, ghost coords: seq<Vec3>,
                       ghost edges: seq<Edge>, ghost faces: seq<Face>, ghost done: seq<Face>, surfaces: seq<Group>)
    returns (one: Result<Group, PassError>, ghost f: Face)
    requires m.Valid() && m.coords == coords && m.edges == edges && NoDup(oldGroups) && VirtBelow(virt, |coords|)
    requires forall a | 0 <= a < |faces| :: faces[a].Valid() && AllBelow(faces[a].nodes, |coords|)
    requires FacesNow(oldGroups, done, faces) && |done| == k < |oldGroups|
    requires SurfacesBuilt(surfaces, done, coords, virt) && oldGroups[k] !in surfaces
    modifies oldGroups[k]
    ensures one.Err? ==> FaceSurface(coords, edges, virt, faces[k]) == Err(one.error)
    ensures one.Ok? ==>
              && FaceSurface(coords, edges, virt, faces[k]).Ok? && f.size == faces[k].size
              && fresh(one.value) && FacesNow(oldGroups, done + [f], faces)
              && SurfacesBuilt(surfaces + [one.value], done + [f], coords, virt)
  {
    var g := oldGroups[k];
    assert FaceOf(g) == faces[k];
    one := ResurfaceOne(m, virt, g);
    f := FaceOf(g);
    if one.Ok? {
      assert forall a | 0 <= a < |oldGroups| && a != k :: oldGroups[a] != g;
      SurfacesBuiltSnoc(surfaces, done, one.value, f, coords, virt);
    }
  }

  /** The second loop of the pass: one surface group per old face, built
      from the sub-nodes nearest to each pair of neighbouring corners. */
  method ResurfaceAll(m: Mesh, oldGroups: seq<Group>, virt: map<nat, seq<nat>>)
    returns (r: Outcome<PassError>, surfaces: seq<Group>)
    requires m.Valid() && NoDup(oldGroups) && VirtBelow(virt, |m.coords|)
    requires forall a | 0 <= a < |oldGroups| :: oldGroups[a].Valid() && oldGroups[a].Within(|m.coords|)
    modifies oldGroups
    ensures r == ResurfaceRun(m.coords, m.edges, virt, old(FacesOf(oldGroups)))
    ensures r.Pass? ==>
              && (forall a | 0 <= a < |oldGroups| :: oldGroups[a].size == old(oldGroups[a].size))
              && |surfaces| == |oldGroups| && NoDup(surfaces)
              && fresh(set s | s in surfaces)
              && SurfacesOk(surfaces, oldGroups, m.coords, virt)
  {
    ghost var faces := FacesOf(oldGroups);
    ghost var coords, edges := m.coords, m.edges;
    ghost var done: seq<Face> := [];
    surfaces := [];
    assert forall a | 0 <= a < |faces| :: faces[a].Valid() && AllBelow(faces[a].nodes, |coords|);
    for k := 0 to |oldGroups|
      invariant |surfaces| == k == |done| && NoDup(surfaces)
      invariant m.coords == coords && m.edges == edges
      invariant fresh(set s | s in surfaces)
      invariant FacesNow(oldGroups, done, faces)
      invariant SurfacesBuilt(surfaces, done, coords, virt)
      invariant forall a | 0 <= a < k :: done[a].size == faces[a].size
      invariant forall a | 0 <= a < k :: FaceSurface(coords, edges, virt, faces[a]).Ok?
    {
      assert oldGroups[k] !in surfaces;
      var one, f := ResurfaceNext(m, oldGroups, virt, k, coords, edges, faces, done, surfaces);
      if one.Err? {
        ResurfaceRunStops(coords, edges, virt, faces, k);
        return Fail(one.error), surfaces;
      }
      var s := one.value;
      assert s !in surfaces;
      NoDupSnoc(surfaces, s);
      surfaces, done := surfaces + [s], done + [f];
    }
    SurfacesOkFrom(surfaces, oldGroups, done, coords, virt);
    r := Pass;
  }

  // ---------------------------------------------------------------------
  // Phase 3: the graphical ladders of the rebuilt faces

  /** The third loop: `inter_connect("graphical")` on each surface group,
      which keeps its cycle. An empty surface (from an empty old face)
      fails on the logarithm of zero. */
  method ConnectSurfaces(m: Mesh, surfaces: seq<Group>) returns (r: Outcome<PassError>)
    requires m.Valid() && NoDup(surfaces)
    requires forall a | 0 <= a < |surfaces| ::
               surfaces[a].Valid() && surfaces[a].Within(|m.coords|) && surfaces[a].ordered
    modifies m, surfaces
    ensures m.Valid() && m.coords == old(m.coords) && old(m.edges) <= m.edges
    ensures forall a | 0 <= a < |surfaces| ::
              && surfaces[a].nodes == old(surfaces[a].nodes) && surfaces[a].ogroup == old(surfaces[a].ogroup)
              && surfaces[a].ordered == old(surfaces[a].ordered) && surfaces[a].size == old(surfaces[a].size)
              && surfaces[a].triangles == old(surfaces[a].triangles)
    ensures r.Pass? <==> forall a | 0 <= a < |surfaces| :: surfaces[a].size > 0
    ensures r.Fail? ==> r.error == GroupFailure(LogOfZero)
    ensures r.Pass? ==> forall a | 0 <= a < |surfaces| :: LadderLinked(m.edges, surfaces[a])
  {
    for k := 0 to |surfaces|
      invariant m.Valid() && m.coords == old(m.coords) && old(m.edges) <= m.edges
      invariant forall a | 0 <= a < |surfaces| ::
                  && surfaces[a].nodes == old(surfaces[a].nodes) && surfaces[a].ogroup == old(surfaces[a].ogroup)
                  && surfaces[a].ordered == old(surfaces[a].ordered) && surfaces[a].size == old(surfaces[a].size)
                  && surfaces[a].triangles == old(surfaces[a].triangles)
      invariant forall a | 0 <= a < |surfaces| :: surfaces[a].Valid() && surfaces[a].Within(|m.coords|)
      invariant forall a | 0 <= a < k :: surfaces[a].size > 0 && LadderLinked(m.edges, surfaces[a])
    {
      var g := surfaces[k];
      assert forall a | 0 <= a < |surfaces| && a != k :: surfaces[a] != g;
      ghost var before := m.edges;
      var ic := g.InterConnect(m, Graphical, false);
      if ic.Fail? {
        return Fail(GroupFailure(LogOfZero));
      }
      forall a | 0 <= a < k
        ensures LadderLinked(m.edges, surfaces[a])
      {
        LadderLinkedGrows(before, m.edges, surfaces[a]);
      }
    }
    r := Pass;
  }

  // ---------------------------------------------------------------------
  // The pass

  /** The sub-node blocks of `nodes`, in order. */
  function Blocks(virt: map<nat, seq<nat>>, nodes: seq<nat>): seq<seq<nat>>
    requires forall x | x in nodes :: x in virt
  {
    seq(|nodes|, i requires 0 <= i < |nodes| => virt[nodes[i]])
  }

  /** The second and third loops together: the rebuilt faces, then their
      graphical ladders. */
  method Resurface(m: Mesh, oldGroups: seq<Group>, virt: map<nat, seq<nat>>, ghost faces: seq<Face>)
    returns (r: Outcome<PassError>, surfaces: seq<Group>)
    requires m.Valid() && NoDup(oldGroups) && VirtBelow(virt, |m.coords|)
    requires forall a | 0 <= a < |oldGroups| :: oldGroups[a].Valid() && oldGroups[a].Within(|m.coords|)
    requires faces == FacesOf(oldGroups)
    modifies m, oldGroups
    ensures m.Valid() && m.coords == old(m.coords) && old(m.edges) <= m.edges
    ensures r.Pass? ==>
              && |surfaces| == |oldGroups| && NoDup(surfaces)
              && fresh(set s | s in surfaces)
              && SurfacesOk(surfaces, oldGroups, m.coords, virt)
              && (forall a | 0 <= a < |surfaces| :: LadderLinked(m.edges, surfaces[a]))
    ensures ResurfacesTo(r, old(m.coords), old(m.edges), virt, faces)
  {
    surfaces := [];
    r, surfaces := ResurfaceAll(m, oldGroups, virt);
    if r.Fail? {
      return;
    }
    assert forall s | s in surfaces :: s !in oldGroups;
    forall a | 0 <= a < |surfaces|
      ensures surfaces[a].size > 0 <==> faces[a].size > 0
    {
      SurfaceNonEmpty(surfaces[a], m.coords, virt, oldGroups[a].ogroup, oldGroups[a].size);
    }
    label Built:
    r := ConnectSurfaces(m, surfaces);
    if r.Fail? {
      return;
    }
    forall a | 0 <= a < |surfaces|
      ensures oldGroups[a].Valid() && oldGroups[a].ordered
      ensures SurfaceOk(surfaces[a], m.coords, virt, oldGroups[a].ogroup, oldGroups[a].size)
    {
      assert old@Built(SurfaceOk(surfaces[a], m.coords, virt, oldGroups[a].ogroup, oldGroups[a].size));
    }
  }

  /** What the pass leaves: `virt` maps each old node to its block of
      sub-nodes; `newNodes`, the blocks in order, are the arena handles
      from c0 on; `groups` holds one valid, distinct corner group per old
      node and then one rebuilt, laddered face per old face. */
  ghost predicate Subdivided(m: Mesh, oldNodes: seq<nat>, oldGroups: seq<Group>, c0: nat,
                             virt: map<nat, seq<nat>>, newNodes: seq<nat>, groups: seq<Group>)
    reads m, oldGroups, groups
  {
    && c0 <= |m.coords|
    && (forall x :: x in virt <==> x in oldNodes)
    && Collected(oldNodes, |oldNodes|, virt, newNodes, Blocks(virt, oldNodes), c0, |m.coords|)
    && NoDup(newNodes) && AllBelow(newNodes, |m.coords|)
    && |groups| == |oldNodes| + |oldGroups| && NoDup(groups)
    && (forall a | 0 <= a < |groups| :: groups[a].Valid() && groups[a].Within(|m.coords|))
    && CornersOk(groups[..|oldNodes|], Blocks(virt, oldNodes), m.edges, |m.coords|)
    && SurfacesOk(groups[|oldNodes|..], oldGroups, m.coords, virt)
    && (forall k | |oldNodes| <= k < |groups| :: LadderLinked(m.edges, groups[k]))
  }

  /** The corners and the rebuilt faces together make the pass's result. */
  lemma SubdividedFrom(m: Mesh, oldNodes: seq<nat>, oldGroups: seq<Group>, c0: nat, virt: map<nat, seq<nat>>,
                       newNodes: seq<nat>, blocks: seq<seq<nat>>, corners: seq<Group>, surfaces: seq<Group>)
    requires Collected(oldNodes, |oldNodes|, virt, newNodes, blocks, c0, |m.coords|)
    requires |corners| == |oldNodes| && |surfaces| == |oldGroups|
    requires NoDup(corners) && NoDup(surfaces) && forall g | g in corners :: g !in surfaces
    requires CornersOk(corners, blocks, m.edges, |m.coords|)
    requires SurfacesOk(surfaces, oldGroups, m.coords, virt)
    requires forall a | 0 <= a < |surfaces| :: LadderLinked(m.edges, surfaces[a])
    ensures blocks == Blocks(virt, oldNodes)
    ensures Subdivided(m, oldNodes, oldGroups, c0, virt, newNodes, corners + surfaces)
  {
    var groups := corners + surfaces;
    NoDupConcat(corners, surfaces);
    assert groups[..|oldNodes|] == corners && groups[|oldNodes|..] == surfaces;
    BlocksCollected(oldNodes, virt, newNodes, blocks, c0, |m.coords|);
    forall a | 0 <= a < |groups|
      ensures groups[a].Valid() && groups[a].Within(|m.coords|)
    {
      if a < |corners| {
        assert CornerOk(corners[a], m.edges, |m.coords|, blocks[a]);
      } else {
        assert SurfaceOk(surfaces[a - |corners|], m.coords, virt, oldGroups[a - |corners|].ogroup, oldGroups[a - |corners|].size);
      }
    }
  }

  /** After the first loop, the blocks are the sub-nodes of the input nodes
      in order, and the new nodes are distinct arena handles. */
  lemma BlocksCollected(oldNodes: seq<nat>, virt: map<nat, seq<nat>>, newNodes: seq<nat>,
                        blocks: seq<seq<nat>>, c0: nat, n: nat)
    requires Collected(oldNodes, |oldNodes|, virt, newNodes, blocks, c0, n)
    ensures forall x :: x in virt <==> x in oldNodes
    ensures blocks == Blocks(virt, oldNodes)
    ensures NoDup(newNodes) && AllBelow(newNodes, n)
  {
    assert oldNodes[..|oldNodes|] == oldNodes;
  }

  /** Resurface, seen from the corner groups cut before it: they are left
      as they were and stay cut once the ladders are added, so the corner
      groups followed by the rebuilt faces are the subdivision. */
  method ResurfaceBeside(m: Mesh, oldNodes: seq<nat>, oldGroups: seq<Group>, ghost c0: nat, virt: map<nat, seq<nat>>,
                         newNodes: seq<nat>, corners: seq<Group>, ghost blocks: seq<seq<nat>>, ghost faces: seq<Face>)
    returns (r: Outcome<PassError>, groups: seq<Group>)
    requires m.Valid() && NoDup(oldGroups) && VirtBelow(virt, |m.coords|)
    requires Collected(oldNodes, |oldNodes|, virt, newNodes, blocks, c0, |m.coords|)
    requires forall a | 0 <= a < |oldGroups| :: oldGroups[a].Valid() && oldGroups[a].Within(|m.coords|)
    requires |corners| == |oldNodes| && NoDup(corners)
    requires forall a | 0 <= a < |corners| :: corners[a] !in oldGroups
    requires CornersOk(corners, blocks, m.edges, |m.coords|)
    requires faces == FacesOf(oldGroups)
    modifies m, oldGroups
    ensures m.Valid() && m.coords == old(m.coords) && old(m.edges) <= m.edges
    ensures r.Pass? ==>
              && |corners| <= |groups| && groups[..|corners|] == corners
              && fresh(set g | g in groups[|corners|..])
              && Subdivided(m, oldNodes, oldGroups, c0, virt, newNodes, groups)
    ensures ResurfacesTo(r, old(m.coords), old(m.edges), virt, faces)
  {
    ghost var before, n := m.edges, |m.coords|;
    var surfaces;
    r, surfaces := Resurface(m, oldGroups, virt, faces);
    if r.Fail? {
      return r, [];
    }
    assert CornersOk(corners, blocks, before, n);
    CornersSurviveGrowth(corners, blocks, before, m.edges, n);
    groups := corners + surfaces;
    assert groups[..|corners|] == corners && groups[|corners|..] == surfaces;
    SubdividedFrom(m, oldNodes, oldGroups, c0, virt, newNodes, blocks, corners, surfaces);
  }

  /** The three loops of the pass over the nodes and faces of a polyhedron:
      the corner groups, then the rebuilt faces with their ladders. */
  method Subdivide(m: Mesh, oldNodes: seq<nat>, oldGroups: seq<Group>, rs: Ratios)
    returns (r: Outcome<PassError>, groups: seq<Group>, virt: map<nat, seq<nat>>, newNodes: seq<nat>, ghost cut: nat)
    requires m.Valid() && NoDup(oldNodes) && AllBelow(oldNodes, |m.coords|) && NoDup(oldGroups)
    requires forall a | 0 <= a < |oldGroups| :: oldGroups[a].Valid() && oldGroups[a].Within(|m.coords|)
    modifies m, oldGroups
    ensures m.Valid()
    ensures !CornersPass(old(m.edges), old(m.incident), oldNodes, |oldNodes|) ==>
              && r.Fail? && (r.error.UnknownEdgeType? || r.error == GroupFailure(EmptyGroup))
              && exists k: nat :: FirstFailureAt(old(m.edges), old(m.incident), oldNodes, k) &&
                   (r.error.UnknownEdgeType? <==> HasUnknownEdge(old(m.edges), old(m.incident)[oldNodes[k]]))
    ensures CornersPass(old(m.edges), old(m.incident), oldNodes, |oldNodes|) ==>
              && old(m.coords) <= m.coords && old(|m.edges|) <= cut <= |m.edges|
              && ResurfacesTo(r, m.coords, m.edges[..cut], virt, old(FacesOf(oldGroups)))
    ensures r.Pass? ==>
              && old(m.coords) <= m.coords && fresh(set g | g in groups)
              && Subdivided(m, oldNodes, oldGroups, old(|m.coords|), virt, newNodes, groups)
              && CutAsSpecified(m.coords, m.edges, virt, old(m.coords), old(m.edges), old(m.incident), oldNodes, rs)
  {
    ghost var c0 := |m.coords|;
    ghost var E0, I0 := m.edges, m.incident;
    ghost var faces := FacesOf(oldGroups);
    assert forall a | 0 <= a < |faces| :: AllBelow(faces[a].nodes, c0);
    var t, corners, virt', newNodes', blocks, failed := TruncateAll(m, oldNodes, rs);
    virt, newNodes := virt', newNodes';
    cut := |m.edges|;
    if t.Fail? {
      CornersPassMeaning(E0, I0, oldNodes, |oldNodes|);
      assert !CornersPass(E0, I0, oldNodes, |oldNodes|);
      return t, [], virt, newNodes, cut;
    }
    ghost var E1 := m.edges;
    forall a | 0 <= a < |oldGroups|
      ensures oldGroups[a].Within(|m.coords|)
    {
      assert oldGroups[a].Within(c0);
    }
    r, groups := ResurfaceBeside(m, oldNodes, oldGroups, c0, virt, newNodes, corners, blocks, faces);
    assert m.edges[..cut] == E1;
    forall a | 0 <= a < |faces|
      ensures AllBelow(faces[a].nodes, |m.coords|)
    {
      assert AllBelow(faces[a].nodes, c0);
    }
    CutAsSpecifiedGrow(m.coords, E1, m.edges, virt, old(m.coords), old(m.edges), old(m.incident), oldNodes, rs);
  }

  /** `Chaikin3D(n)`: the ratios, then the three loops. The arena is changed
      in place (main edges repointed to the sub-nodes, new edges added) and
      the old faces get ordered; the result is a new polyhedron over the
      same arena whose nodes are the sub-nodes, corner by corner, and whose
      groups are the corner groups followed by the rebuilt faces. */
  method Chaikin3D(p: Polyhedron, n: real)
    returns (r: Result<Polyhedron, PassError>, ghost virt: map<nat, seq<nat>>, ghost cut: nat)
    requires p.Valid()
    modifies p.mesh, p.groups
    ensures PassRatios(n).Err? ==> r == Err(ZeroDivision) && unchanged(p.mesh)
    ensures PassRatios(n).Ok? && !CornersPass(old(p.mesh.edges), old(p.mesh.incident), p.nodes, |p.nodes|) ==>
              && r.Err? && (r.error.UnknownEdgeType? || r.error == GroupFailure(EmptyGroup))
              && exists k: nat :: FirstFailureAt(old(p.mesh.edges), old(p.mesh.incident), p.nodes, k) &&
                   (r.error.UnknownEdgeType? <==> HasUnknownEdge(old(p.mesh.edges), old(p.mesh.incident)[p.nodes[k]]))
    ensures PassRatios(n).Ok? && CornersPass(old(p.mesh.edges), old(p.mesh.incident), p.nodes, |p.nodes|) ==>
              && old(p.mesh.coords) <= p.mesh.coords && old(|p.mesh.edges|) <= cut <= |p.mesh.edges|
              && ResurfacesTo(if r.Ok? then Pass else Fail(r.error), p.mesh.coords, p.mesh.edges[..cut], virt,
                              old(FacesOf(p.groups)))
    ensures r.Ok? ==>
              && PassRatios(n).Ok?
              && fresh(r.value) && r.value.mesh == p.mesh && r.value.Valid()
              && old(p.mesh.coords) <= p.mesh.coords
              && Subdivided(p.mesh, p.nodes, p.groups, old(|p.mesh.coords|), virt, r.value.nodes, r.value.groups)
              && CutAsSpecified(p.mesh.coords, p.mesh.edges, virt, old(p.mesh.coords), old(p.mesh.edges), old(p.mesh.incident),
                                p.nodes, PassRatios(n).value)
  {
    var ratios := PassRatios(n);
    if ratios.Err? {
      return Err(ratios.error), map[], 0;
    }
    var s, groups, virt', newNodes, cut' := Subdivide(p.mesh, p.nodes, p.groups, ratios.value);
    virt, cut := virt', cut';
    if s.Fail? {
      return Err(s.error), virt, cut;
    }
    var q := new Polyhedron(p.mesh, newNodes, groups);
    r := Ok(q);
  }
}
