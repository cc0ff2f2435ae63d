/** Chaikin groups (faces): a set of nodes, its cyclic ordering along main
    edges, the boundary stamping `cycle_connect`, the doubling-ladder
    triangulation `inter_connect` and the triangle enumeration. Models
    chaikin3d/chaikin_groups.py. */
module ChaikinGroups {
  import opened Common
  import opened MeshGraph

  datatype GroupError =
    | BrokenGroup          // `order` found no main-connected successor
    | NotOrdered           // `inter_connect` on an unordered group
    | LogOfZero            // `int(log2(0))` on an empty group
    | EmptyGroup           // `self.nodes[-1]` on an empty group
    | AlreadyCalculated    // `calc_triangles` called twice
    | NotInterconnected    // `triangles` read before `calc_triangles`

  // ---------------------------------------------------------------------
  // The ordering walk

  /** Position of the first node of `rest` that is main-connected to `cur`,
      or |rest| when there is none: the scan of the inner `for` loop. */
  function FirstLinked(edges: seq<Edge>, cur: nat, rest: seq<nat>): (k: nat)
    ensures k <= |rest|
    ensures k < |rest| ==> Connected(edges, cur, rest[k], Main)
    ensures forall j | 0 <= j < k :: !Connected(edges, cur, rest[j], Main)
  {
    if rest == [] then 0
    else if Connected(edges, cur, rest[0], Main) then 0
    else 1 + FirstLinked(edges, cur, rest[1..])
  }

  /** The scan of the inner loop stops at FirstLinked. */
  lemma FirstLinkedUnique(edges: seq<Edge>, cur: nat, rest: seq<nat>, k: nat)
    requires k <= |rest| && (k < |rest| ==> Connected(edges, cur, rest[k], Main))
    requires forall j | 0 <= j < k :: !Connected(edges, cur, rest[j], Main)
    ensures k == FirstLinked(edges, cur, rest)
  {
  }

  /** `rest` without its element at position k (`list.pop(k)`). */
  function Remove(rest: seq<nat>, k: nat): seq<nat>
    requires k < |rest|
  {
    rest[..k] + rest[k + 1..]
  }

  lemma RemoveMultiset(rest: seq<nat>, k: nat)
    requires k < |rest|
    ensures multiset(rest) == multiset([rest[k]]) + multiset(Remove(rest, k))
  {
    assert rest == rest[..k] + [rest[k]] + rest[k + 1..];
  }

  /** The greedy walk of `order` from `cur` over the unplaced nodes `rest`:
      the nodes appended after `cur`, and whether every node was reached.
      When the walk is stuck the leftovers are appended unchanged, as the
      source does before raising. */
  function Walk(edges: seq<Edge>, cur: nat, rest: seq<nat>): (seq<nat>, bool)
    decreases |rest|
  {
    if rest == [] then ([], true)
    else
      var k := FirstLinked(edges, cur, rest);
      if k == |rest| then (rest, false)
      else
        var w := Walk(edges, rest[k], Remove(rest, k));
        ([rest[k]] + w.0, w.1)
  }

  /** What `order` leaves in `ogroup`, and whether it succeeds. Groups of
      fewer than three nodes are taken as they are; otherwise the walk
      starts at the last node. */
  function OrderedWalk(edges: seq<Edge>, nodes: seq<nat>): (seq<nat>, bool) {
    if |nodes| < 3 then (nodes, true)
    else
      var last := nodes[|nodes| - 1];
      var w := Walk(edges, last, nodes[..|nodes| - 1]);
      ([last] + w.0, w.1)
  }

  /** Consecutive nodes are joined by main edges. */
  ghost predicate Chain(edges: seq<Edge>, s: seq<nat>) {
    forall i | 0 <= i < |s| - 1 :: Connected(edges, s[i], s[i + 1], Main)
  }

  /** The node after position i on the cycle of s: the next one, and the
      first after the last. */
  function Succ(s: seq<nat>, i: nat): nat
    requires i < |s|
  {
    if i + 1 == |s| then s[0] else s[i + 1]
  }

  /** Position i of s is joined to its successor by an edge of type t. */
  ghost predicate CycleStep(edges: seq<Edge>, s: seq<nat>, i: nat, t: EdgeType)
    requires i < |s|
  {
    Connected(edges, s[i], Succ(s, i), t)
  }

  /** Edge e joins some node of s to its successor with type t. */
  ghost predicate StampedStep(e: Edge, s: seq<nat>, t: EdgeType) {
    exists k | 0 <= k < |s| :: e.Joins(s[k], Succ(s, k), t)
  }

  /** Every node is joined to the next one, and the last to the first. */
  ghost predicate CycleLinked(edges: seq<Edge>, s: seq<nat>, t: EdgeType) {
    forall i | 0 <= i < |s| :: CycleStep(edges, s, i, t)
  }

  /** The edges added since `start` each join a node of s to its successor. */
  ghost predicate StampedSince(start: seq<Edge>, edges: seq<Edge>, s: seq<nat>, t: EdgeType) {
    && start <= edges
    && forall e | |start| <= e < |edges| :: StampedStep(edges[e], s, t)
  }

  /** Edges added by a cycle join members of the cycle. */
  lemma StampedWithin(start: seq<Edge>, edges: seq<Edge>, s: seq<nat>, t: EdgeType)
    requires StampedSince(start, edges, s, t)
    ensures forall e | |start| <= e < |edges| :: edges[e].a in s && edges[e].b in s
  {
    forall e | |start| <= e < |edges|
      ensures edges[e].a in s && edges[e].b in s
    {
      var k :| 0 <= k < |s| && edges[e].Joins(s[k], Succ(s, k), t);
    }
  }

  /** The first i positions of s are joined to their successors. */
  ghost predicate StepsUpTo(edges: seq<Edge>, s: seq<nat>, i: nat, t: EdgeType)
    requires i <= |s|
  {
    forall j | 0 <= j < i :: CycleStep(edges, s, j, t)
  }

  /** One `connect` of `cycle_connect`: position i to its successor. */
  method ConnectSucc(m: Mesh, s: seq<nat>, i: nat, t: EdgeType, ghost start: seq<Edge>)
    requires m.Valid() && i < |s| && NoDup(s) && AllBelow(s, |m.coords|)
    requires StampedSince(start, m.edges, s, t) && StepsUpTo(m.edges, s, i, t)
    modifies m
    ensures m.Valid() && m.coords == old(m.coords) && |m.incident| == old(|m.incident|)
    ensures StampedSince(start, m.edges, s, t)
    ensures StepsUpTo(m.edges, s, if |s| >= 2 then i + 1 else i, t)
    ensures old(m.edges) <= m.edges
    ensures m.incident == Attach(old(m.incident), m.edges, old(|m.edges|))
  {
    ghost var before := m.edges;
    m.Connect(s[i], Succ(s, i), t);
    if |m.edges| > |before| {
      assert m.edges[|before|].Joins(s[i], Succ(s, i), t);
    }
    forall j | 0 <= j < i
      ensures CycleStep(m.edges, s, j, t)
    {
      assert CycleStep(before, s, j, t);
      ConnectedPrefix(before, m.edges, s[j], Succ(s, j), t);
    }
    if |s| >= 2 {
      assert s[i] != Succ(s, i);
    }
  }

  /** Whatever happens, the walk places each unplaced node exactly once. */
  lemma {:induction false} WalkPermutes(edges: seq<Edge>, cur: nat, rest: seq<nat>)
    ensures multiset(Walk(edges, cur, rest).0) == multiset(rest)
    decreases |rest|
  {
    if rest != [] {
      var k := FirstLinked(edges, cur, rest);
      if k < |rest| {
        WalkPermutes(edges, rest[k], Remove(rest, k));
        RemoveMultiset(rest, k);
      }
    }
  }

  /** A completed walk follows main edges from `cur` through every step. */
  lemma {:induction false} WalkChains(edges: seq<Edge>, cur: nat, rest: seq<nat>)
    requires Walk(edges, cur, rest).1
    ensures Chain(edges, [cur] + Walk(edges, cur, rest).0)
    decreases |rest|
  {
    if rest != [] {
      var k := FirstLinked(edges, cur, rest);
      var w := Walk(edges, rest[k], Remove(rest, k));
      WalkChains(edges, rest[k], Remove(rest, k));
      var s := [cur] + ([rest[k]] + w.0);
      assert s == [cur] + ([rest[k]] + w.0);
      forall i | 0 <= i < |s| - 1
        ensures Connected(edges, s[i], s[i + 1], Main)
      {
        if i > 0 {
          assert s[i] == ([rest[k]] + w.0)[i - 1] && s[i + 1] == ([rest[k]] + w.0)[i];
        }
      }
    }
  }

  /** A failed walk is stuck at some step j: it followed main edges up to
      node j, and none of the nodes still unplaced at that step is
      main-connected to the node it had reached. */
  lemma {:induction false} WalkStuck(edges: seq<Edge>, cur: nat, rest: seq<nat>)
    requires !Walk(edges, cur, rest).1
    ensures var w := Walk(edges, cur, rest).0;
            exists j | 0 <= j < |w| ::
              Chain(edges, [cur] + w[..j])
              && forall i | j <= i < |w| :: !Connected(edges, ([cur] + w)[j], w[i], Main)
    decreases |rest|
  {
    var w := Walk(edges, cur, rest).0;
    var k := FirstLinked(edges, cur, rest);
    if k == |rest| {
      assert w == rest;
      assert w[..0] == [];
      assert Chain(edges, [cur] + w[..0]);
      assert forall i | 0 <= i < |w| :: !Connected(edges, ([cur] + w)[0], w[i], Main);
    } else {
      var sub := Walk(edges, rest[k], Remove(rest, k)).0;
      WalkStuck(edges, rest[k], Remove(rest, k));
      var j :| 0 <= j < |sub|
        && Chain(edges, [rest[k]] + sub[..j])
        && forall i | j <= i < |sub| :: !Connected(edges, ([rest[k]] + sub)[j], sub[i], Main);
      assert w == [rest[k]] + sub;
      var s := [cur] + w[..j + 1];
      assert s == [cur] + ([rest[k]] + sub[..j]);
      forall i | 0 <= i < |s| - 1
        ensures Connected(edges, s[i], s[i + 1], Main)
      {
        if i > 0 {
          assert s[i] == ([rest[k]] + sub[..j])[i - 1];
          assert s[i + 1] == ([rest[k]] + sub[..j])[i];
        }
      }
      assert ([cur] + w)[j + 1] == ([rest[k]] + sub)[j];
      forall i | j + 1 <= i < |w|
        ensures !Connected(edges, ([cur] + w)[j + 1], w[i], Main)
      {
        assert w[i] == sub[i - 1];
      }
    }
  }

  /** When the unplaced nodes already follow main edges from `cur` in list
      order, the walk takes them in that order and completes. */
  lemma {:induction false} ChainedWalk(edges: seq<Edge>, cur: nat, rest: seq<nat>)
    requires Chain(edges, [cur] + rest)
    ensures Walk(edges, cur, rest) == (rest, true)
    decreases |rest|
  {
    if rest != [] {
      assert ([cur] + rest)[0] == cur && ([cur] + rest)[1] == rest[0];
      assert FirstLinked(edges, cur, rest) == 0;
      assert Remove(rest, 0) == rest[1..];
      var s := [rest[0]] + rest[1..];
      forall i | 0 <= i < |s| - 1
        ensures Connected(edges, s[i], s[i + 1], Main)
      {
        assert s[i] == ([cur] + rest)[i + 1] && s[i + 1] == ([cur] + rest)[i + 2];
      }
      ChainedWalk(edges, rest[0], rest[1..]);
      assert [rest[0]] + rest[1..] == rest;
    }
  }

  /** One step of the walk. */
  lemma WalkStep(edges: seq<Edge>, cur: nat, rest: seq<nat>)
    requires rest != []
    ensures var k := FirstLinked(edges, cur, rest);
            && (k == |rest| ==> Walk(edges, cur, rest) == (rest, false))
            && (k < |rest| ==>
                  var w := Walk(edges, rest[k], Remove(rest, k));
                  Walk(edges, cur, rest) == ([rest[k]] + w.0, w.1))
  {
  }

  /** The sanity check of face construction: a group whose nodes were just
      cycle-connected with main edges orders successfully, starting from its
      last node and then following the list. */
  lemma CycleConnectedOrders(edges: seq<Edge>, nodes: seq<nat>)
    requires |nodes| >= 3 && CycleLinked(edges, nodes, Main)
    ensures OrderedWalk(edges, nodes) == ([nodes[|nodes| - 1]] + nodes[..|nodes| - 1], true)
  {
    var n := |nodes|;
    var s := [nodes[n - 1]] + nodes[..n - 1];
    forall i | 0 <= i < |s| - 1
      ensures Connected(edges, s[i], s[i + 1], Main)
    {
      if i == 0 {
        assert CycleStep(edges, nodes, n - 1, Main);
      } else {
        assert CycleStep(edges, nodes, i - 1, Main);
      }
    }
    ChainedWalk(edges, nodes[n - 1], nodes[..n - 1]);
  }

  /** `order` on three or more nodes: on success `ogroup` is a permutation of
      the nodes that starts with the last node and follows main edges; on
      failure it is still a permutation, and the walk is stuck. */
  lemma OrderedWalkMeaning(edges: seq<Edge>, nodes: seq<nat>)
    requires |nodes| >= 3
    ensures var (og, ok) := OrderedWalk(edges, nodes);
            && multiset(og) == multiset(nodes)
            && og[0] == nodes[|nodes| - 1]
            && (ok ==> Chain(edges, og))
  {
    var n := |nodes|;
    var last := nodes[n - 1];
    WalkPermutes(edges, last, nodes[..n - 1]);
    assert nodes == nodes[..n - 1] + [last];
    if Walk(edges, last, nodes[..n - 1]).1 {
      WalkChains(edges, last, nodes[..n - 1]);
    }
  }

  /** A permutation of the members has exactly the members, as many times. */
  lemma MembersOfPermutation(og: seq<nat>, nodes: seq<nat>)
    requires multiset(og) == multiset(nodes)
    ensures |og| == |nodes|
    ensures forall x | x in og :: x in nodes
  {
    assert |multiset(og)| == |multiset(nodes)|;
    forall x | x in og
      ensures x in nodes
    {
      assert x in multiset(og);
    }
  }

  lemma ChainGrows(edges: seq<Edge>, more: seq<Edge>, s: seq<nat>)
    requires Chain(edges, s)
    ensures Chain(edges + more, s)
  {
    forall i | 0 <= i < |s| - 1
      ensures Connected(edges + more, s[i], s[i + 1], Main)
    {
      ConnectedGrows(edges, more, s[i], s[i + 1], Main);
    }
  }

  lemma CycleLinkedGrows(edges: seq<Edge>, more: seq<Edge>, s: seq<nat>, t: EdgeType)
    requires CycleLinked(edges, s, t)
    ensures CycleLinked(edges + more, s, t)
  {
    forall i | 0 <= i < |s|
      ensures CycleStep(edges + more, s, i, t)
    {
      assert CycleStep(edges, s, i, t);
      ConnectedGrows(edges, more, s[i], Succ(s, i), t);
    }
  }

  // ---------------------------------------------------------------------
  // The doubling ladder of inter_connect

  function Pow2(k: nat): (r: nat)
    ensures r >= 1
  {
    if k == 0 then 1 else 2 * Pow2(k - 1)
  }

  /** `int(log2(n))` for n >= 1. */
  function FloorLog2(n: nat): (r: nat)
    requires n >= 1
    ensures Pow2(r) <= n < Pow2(r + 1)
  {
    if n < 2 then 0 else 1 + FloorLog2(n / 2)
  }

  /** The number of passes of `inter_connect`: `int(log2(size)) - 1`. */
  function Passes(size: nat): int
    requires size >= 1
  {
    FloorLog2(size) - 1
  }

  /** The links of one pass from position i on: (i - step, i),
      (i, i + step), ... for every position below `size`. */
  function PassFrom(size: nat, step: nat, i: nat): (r: seq<(nat, nat)>)
    requires step >= 1 && i >= step
    ensures forall p | p in r :: p.0 < size && p.1 < size && p.0 + step == p.1
    decreases size - i
  {
    if i >= size then [] else [(i - step, i)] + PassFrom(size, step, i + step)
  }

  lemma PassFromStep(done: seq<(nat, nat)>, size: nat, step: nat, i: nat)
    requires step >= 1 && step <= i < size
    ensures (done + [(i - step, i)]) + PassFrom(size, step, i + step) == done + PassFrom(size, step, i)
  {
  }

  /** The last position a pass reaches from position i: the last of
      i, i + step, i + 2 step, ... below `size`. */
  function LastStop(size: nat, step: nat, i: nat): (r: nat)
    requires step >= 1 && i < size
    ensures i <= r < size <= r + step
    decreases size - i
  {
    if i + step >= size then i else LastStop(size, step, i + step)
  }

  /** One pass with stride `step` over positions of the ordered group:
      0 -> step -> 2 step -> ... -> the last position reached, then that
      position back to 0. */
  function PassPairs(size: nat, step: nat): (r: seq<(nat, nat)>)
    requires size >= 1 && step >= 1
    ensures forall p | p in r :: p.0 < size && p.1 < size
  {
    PassFrom(size, step, step) + [(0, LastStop(size, step, 0))]
  }

  /** The pairs connected by the first `x` passes, pass by pass. */
  function LadderUpTo(size: nat, x: nat): (r: seq<(nat, nat)>)
    requires size >= 1
    ensures forall p | p in r :: p.0 < size && p.1 < size
  {
    if x == 0 then [] else LadderUpTo(size, x - 1) + PassPairs(size, Pow2(x))
  }

  /** Every pair `inter_connect` connects, in order. */
  function Ladder(size: nat): (r: seq<(nat, nat)>)
    requires size >= 1
    ensures forall p | p in r :: p.0 < size && p.1 < size
  {
    if Passes(size) <= 0 then [] else LadderUpTo(size, Passes(size))
  }

  /** Groups of at most three nodes get no ladder edge at all. */
  lemma {:induction false} SmallGroupsGetNoLadder(size: nat)
    requires 1 <= size <= 3
    ensures Ladder(size) == []
  {
    if size >= 2 {
      assert FloorLog2(size / 2) == 0;
    }
  }

  lemma {:induction false} PowMonotone(a: nat, b: nat)
    requires a <= b
    ensures Pow2(a) <= Pow2(b)
    decreases b
  {
    if a < b { PowMonotone(a, b - 1); }
  }

  lemma {:induction false} FloorLog2AtLeast(n: nat, k: nat)
    requires n >= Pow2(k)
    ensures FloorLog2(n) >= k
  {
    if k > 0 {
      FloorLog2AtLeast(n / 2, k - 1);
    }
  }

  /** Groups of four or more nodes get at least one pass. */
  lemma LargeGroupsGetPasses(size: nat)
    requires size >= 4
    ensures Passes(size) >= 1 && Ladder(size) != []
  {
    assert Pow2(2) == 4;
    FloorLog2AtLeast(size, 2);
    assert Ladder(size) == LadderUpTo(size, Passes(size));
    assert PassPairs(size, Pow2(Passes(size))) != [];
  }

  /** ogroup[i] and ogroup[j] are joined by an edge of type t (or are the
      same node, which `connect` leaves alone). */
  ghost predicate LinkedAt(edges: seq<Edge>, og: seq<nat>, p: (nat, nat), t: EdgeType)
    requires p.0 < |og| && p.1 < |og|
  {
    og[p.0] != og[p.1] ==> Connected(edges, og[p.0], og[p.1], t)
  }

  // ---------------------------------------------------------------------
  // Triangles

  /** y is reached from x through one of x's edges. */
  ghost predicate PartnerOf(edges: seq<Edge>, incident: seq<seq<nat>>, x: nat, y: nat) {
    x < |incident| && AllBelow(incident[x], |edges|) && y in Partners(edges, incident[x], x)
  }

  /** The triangles `calc_triangles` records: three group members, the second
      a partner of the first, the third a partner of both. */
  ghost predicate FaceTriangle(edges: seq<Edge>, incident: seq<seq<nat>>, nodes: seq<nat>, x: nat, y: nat, z: nat) {
    && x in nodes && y in nodes && z in nodes
    && PartnerOf(edges, incident, x, y)
    && PartnerOf(edges, incident, y, z)
    && PartnerOf(edges, incident, x, z)
  }

  /** The inner scan of `order`: the first unplaced node main-connected to
      `current`. */
  method ScanLinked(m: Mesh, current: nat, rest: seq<nat>) returns (index: nat)
    ensures index == FirstLinked(m.edges, current, rest)
  {
    index := 0;
    while index < |rest| && !m.AreConnected(current, rest[index], Main)
      invariant 0 <= index <= |rest|
      invariant forall j | 0 <= j < index :: !Connected(m.edges, current, rest[j], Main)
    {
      index := index + 1;
    }
    FirstLinkedUnique(m.edges, current, rest, index);
  }

  /** The walk of `order` on three or more nodes, building `ogroup` one node
      at a time; on failure the leftovers are attached before "Broken group"
      is raised. */
  method OrderNodes(m: Mesh, nodes: seq<nat>) returns (ogroup: seq<nat>, ok: bool)
    requires |nodes| >= 3
    ensures (ogroup, ok) == OrderedWalk(m.edges, nodes)
  {
    ghost var W := OrderedWalk(m.edges, nodes);
    var n := |nodes|;
    var groupList := nodes[..n - 1];
    var current := nodes[n - 1];
    ogroup := [current];
    while groupList != []
      invariant ogroup + Walk(m.edges, current, groupList).0 == W.0
      invariant Walk(m.edges, current, groupList).1 == W.1
      decreases |groupList|
    {
      var index := ScanLinked(m, current, groupList);
      WalkStep(m.edges, current, groupList);
      if index == |groupList| {
        assert W == (ogroup + groupList, false);
        ogroup := ogroup + groupList;
        return ogroup, false;
      }
      ogroup := ogroup + [groupList[index]];
      current := groupList[index];
      groupList := Remove(groupList, index);
    }
    assert Walk(m.edges, current, groupList) == ([], true);
    assert ogroup + [] == ogroup;
    assert W == (ogroup, true);
    ok := true;
  }

  /** The edges added since `before` all have type t and join members of og. */
  ghost predicate GrownWithin(before: seq<Edge>, edges: seq<Edge>, og: seq<nat>, t: EdgeType) {
    && before <= edges
    && forall e | |before| <= e < |edges| :: edges[e].kind == t && edges[e].a in og && edges[e].b in og
  }

  /** Every pair of `done` is linked by an edge of type t. */
  ghost predicate PairsLinked(edges: seq<Edge>, og: seq<nat>, done: seq<(nat, nat)>, size: nat, t: EdgeType)
    requires size <= |og|
  {
    forall p | p in done :: p.0 < size && p.1 < size && LinkedAt(edges, og, p, t)
  }

  /** One `connect` of a pass: the pairs linked before stay linked, and
      (i, j) is linked too. */
  method ConnectPair(m: Mesh, og: seq<nat>, size: nat, i: nat, j: nat, t: EdgeType,
                     ghost start: seq<Edge>, ghost lists: seq<seq<nat>>, ghost done: seq<(nat, nat)>)
    requires m.Valid() && i < size && j < size && size <= |og| && AllBelow(og, |m.coords|)
    requires GrownWithin(start, m.edges, og, t) && PairsLinked(m.edges, og, done, size, t)
    modifies m
    ensures m.Valid() && m.coords == old(m.coords) && |m.incident| == old(|m.incident|)
    ensures GrownWithin(start, m.edges, og, t) && PairsLinked(m.edges, og, done + [(i, j)], size, t)
    requires m.incident == Attach(lists, m.edges, |start|)
    ensures m.incident == Attach(lists, m.edges, |start|)
  {
    ghost var before := m.edges;
    m.Connect(og[i], og[j], t);
    AttachTwice(lists, before, m.edges, |start|);
    forall p | p in done
      ensures LinkedAt(m.edges, og, p, t)
    {
      LinkedAtPrefix(before, m.edges, og, p, t);
    }
  }

  /** One pass of `inter_connect` with stride `step` over the ordered
      group `og`. */
  method ConnectPass(m: Mesh, og: seq<nat>, size: nat, step: nat, t: EdgeType)
    requires m.Valid() && 1 <= size <= |og| && step >= 1 && AllBelow(og, |m.coords|)
    modifies m
    ensures m.Valid() && m.coords == old(m.coords) && |m.incident| == old(|m.incident|)
    ensures GrownWithin(old(m.edges), m.edges, og, t)
    ensures forall p | p in PassPairs(size, step) :: LinkedAt(m.edges, og, p, t)
    ensures m.incident == Attach(old(m.incident), m.edges, old(|m.edges|))
  {
    AttachNone(m.incident, m.edges);
    ghost var done: seq<(nat, nat)> := [];
    var prev := og[0];
    var i := step;
    while i < size
      invariant i >= step && i - step < size && prev == og[i - step]
      invariant done + PassFrom(size, step, i) == PassFrom(size, step, step)
      invariant LastStop(size, step, i - step) == LastStop(size, step, 0)
      invariant m.Valid() && m.coords == old(m.coords) && |m.incident| == old(|m.incident|)
      invariant GrownWithin(old(m.edges), m.edges, og, t) && PairsLinked(m.edges, og, done, size, t)
      invariant m.incident == Attach(old(m.incident), m.edges, old(|m.edges|))
      decreases size - i
    {
      ConnectPair(m, og, size, i - step, i, t, old(m.edges), old(m.incident), done);
      PassFromStep(done, size, step, i);
      done := done + [(i - step, i)];
      prev := og[i];
      i := i + step;
    }
    ConnectPair(m, og, size, 0, i - step, t, old(m.edges), old(m.incident), done);
    assert done == PassFrom(size, step, step);
  }

  /** All passes of `inter_connect`: strides 2, 4, 8, ... */
  method ConnectLadder(m: Mesh, og: seq<nat>, size: nat, t: EdgeType)
    requires m.Valid() && 1 <= size <= |og| && AllBelow(og, |m.coords|)
    modifies m
    ensures m.Valid() && m.coords == old(m.coords) && |m.incident| == old(|m.incident|)
    ensures old(m.edges) <= m.edges
    ensures forall e | old(|m.edges|) <= e < |m.edges| ::
              m.edges[e].kind == t && m.edges[e].a in og && m.edges[e].b in og
    ensures forall p | p in Ladder(size) :: LinkedAt(m.edges, og, p, t)
    ensures m.incident == Attach(old(m.incident), m.edges, old(|m.edges|))
  {
    AttachNone(m.incident, m.edges);
    var numIter := Passes(size);
    var x := 0;
    while x < numIter
      invariant 0 <= x && (numIter >= 0 ==> x <= numIter)
      invariant m.Valid() && m.coords == old(m.coords) && |m.incident| == old(|m.incident|)
      invariant old(m.edges) <= m.edges
      invariant forall e | old(|m.edges|) <= e < |m.edges| ::
                  m.edges[e].kind == t && m.edges[e].a in og && m.edges[e].b in og
      invariant forall p | p in LadderUpTo(size, x) :: LinkedAt(m.edges, og, p, t)
      invariant m.incident == Attach(old(m.incident), m.edges, old(|m.edges|))
    {
      ghost var passStart := m.edges;
      ConnectPass(m, og, size, Pow2(x + 1), t);
      AttachTwice(old(m.incident), passStart, m.edges, old(|m.edges|));
      forall p | p in LadderUpTo(size, x + 1)
        ensures LinkedAt(m.edges, og, p, t)
      {
        if p in LadderUpTo(size, x) {
          LinkedAtPrefix(passStart, m.edges, og, p, t);
        } else {
          assert p in PassPairs(size, Pow2(x + 1));
        }
      }
      x := x + 1;
    }
    assert Ladder(size) == [] || Ladder(size) == LadderUpTo(size, x);
  }

  // ---------------------------------------------------------------------
  // The group object

  class Group {
    var nodes: seq<nat>                          // the VirtualSet of members
    var ogroup: seq<nat>                         // [] while the source holds None
    var ordered: bool
    var size: nat
    var triangles: Option<seq<Triangle<nat>>>

    ghost predicate Valid()
      reads this
    {
      && size == |nodes|
      && NoDup(nodes)
      && (ordered ==> size <= |ogroup|)
      && (forall x | x in ogroup :: x in nodes)
    }

    /** All handles the group mentions are nodes of an arena of n nodes. */
    ghost predicate Within(n: nat)
      reads this
    {
      AllBelow(nodes, n)
    }

    /** `Group(iterable)`: the members deduplicated, unordered. */
    constructor (items: seq<nat>)
      ensures Valid()
      ensures nodes == Dedup(items) && size == |nodes|
      ensures ogroup == [] && !ordered && triangles == None
    {
      nodes := Dedup(items);
      size := |Dedup(items)|;
      ogroup := [];
      ordered := false;
      triangles := None;
    }

    /** `__iter__`: the ordered cycle once there is one, else the members.
        Either way it yields only members, and at least `size` of them. */
    function Items(): (r: seq<nat>)
      reads this
      ensures Valid() ==> size <= |r| && forall x | x in r :: x in nodes
    {
      if ordered then ogroup else nodes
    }

    /** `__getitem__`: Python indexing into `Items()`, negative from the end. */
    function At(index: int): (r: Option<nat>)
      reads this
      ensures r.Some? <==> -|Items()| <= index < |Items()|
      ensures r.Some? ==> r.value in Items()
      ensures 0 <= index < |Items()| ==> r == Some(Items()[index])
      ensures -|Items()| <= index < 0 ==> r == Some(Items()[index + |Items()|])
    {
      match PyIndex(|Items()|, index)
      case None => None
      case Some(k) => Some(Items()[k])
    }

    /** The `triangles` property: an assertion failure before `calc_triangles`. */
    function Triangles(): (r: Result<seq<Triangle<nat>>, GroupError>)
      reads this
      ensures r.Err? <==> triangles.None?
      ensures r.Ok? ==> r.value == triangles.value
    {
      match triangles
      case None => Err(NotInterconnected)
      case Some(ts) => Ok(ts)
    }

    /** `order(force)`. */
    method Order(m: Mesh, force: bool) returns (r: Outcome<GroupError>)
      requires Valid()
      modifies this
      ensures Valid()
      ensures nodes == old(nodes) && size == old(size) && triangles == old(triangles)
      ensures !force && old(ordered) ==> r.Pass? && ogroup == old(ogroup) && ordered
      ensures force || !old(ordered) ==>
                && ogroup == OrderedWalk(m.edges, nodes).0
                && (r.Pass? <==> OrderedWalk(m.edges, nodes).1)
                && ordered == (r.Pass? || old(ordered))
      ensures r.Fail? ==> r.error == BrokenGroup
    {
      if !force && ordered {
        return Pass;
      }
      if size < 3 {
        ogroup := nodes;
        ordered := true;
        return Pass;
      }
      var ok;
      ogroup, ok := OrderNodes(m, nodes);
      OrderedWalkMeaning(m.edges, nodes);
      MembersOfPermutation(ogroup, nodes);
      if !ok {
        return Fail(BrokenGroup);
      }
      ordered := true;
      r := Pass;
    }

    /** `cycle_connect(t)`: nodes[i] to nodes[i + 1], and the last to the first. */
    method CycleConnect(m: Mesh, t: EdgeType) returns (r: Outcome<GroupError>)
      requires Valid() && m.Valid() && Within(|m.coords|)
      modifies m
      ensures m.Valid() && m.coords == old(m.coords) && |m.incident| == old(|m.incident|)
      ensures StampedSince(old(m.edges), m.edges, nodes, t)
      ensures r.Fail? <==> size == 0
      ensures size >= 2 ==> CycleLinked(m.edges, nodes, t)
      ensures m.incident == Attach(old(m.incident), m.edges, old(|m.edges|))
    {
      AttachNone(m.incident, m.edges);
      if size == 0 {
        return Fail(EmptyGroup);
      }
      for i := 0 to size
        invariant m.Valid() && m.coords == old(m.coords) && |m.incident| == old(|m.incident|)
        invariant StampedSince(old(m.edges), m.edges, nodes, t) && StepsUpTo(m.edges, nodes, if size >= 2 then i else 0, t)
        invariant m.incident == Attach(old(m.incident), m.edges, old(|m.edges|))
      {
        ghost var E1 := m.edges;
        ConnectSucc(m, nodes, i, t, old(m.edges));
        AttachTwice(old(m.incident), E1, m.edges, old(|m.edges|));
      }
      r := Pass;
    }

    /** `inter_connect(t, order_first)`: the doubling ladder of graphical
        edges over the ordered group. */
    method InterConnect(m: Mesh, t: EdgeType, orderFirst: bool) returns (r: Outcome<GroupError>)
      requires Valid() && m.Valid() && Within(|m.coords|)
      modifies this, m
      ensures Valid() && m.Valid() && Within(|m.coords|)
      ensures nodes == old(nodes) && size == old(size) && triangles == old(triangles)
      ensures m.coords == old(m.coords) && old(m.edges) <= m.edges && |m.incident| == old(|m.incident|)
      ensures forall e | old(|m.edges|) <= e < |m.edges| ::
                m.edges[e].kind == t && m.edges[e].a in nodes && m.edges[e].b in nodes
      ensures !orderFirst ==> ogroup == old(ogroup) && ordered == old(ordered)
      ensures orderFirst ==> ogroup == OrderedWalk(old(m.edges), nodes).0
      ensures r.Pass? <==>
                size > 0 && (if orderFirst then OrderedWalk(old(m.edges), nodes).1 else old(ordered))
      ensures r.Pass? ==> ordered && size <= |ogroup|
      ensures r.Pass? ==> forall p | p in Ladder(size) :: LinkedAt(m.edges, ogroup, p, t)
      ensures m.incident == Attach(old(m.incident), m.edges, old(|m.edges|))
    {
      AttachNone(m.incident, m.edges);
      if orderFirst {
        r := Order(m, true);
        if r.Fail? {
          return;
        }
      }
      if !ordered {
        return Fail(NotOrdered);
      }
      if size == 0 {
        return Fail(LogOfZero);
      }
      AllBelowSubset(ogroup, nodes, |m.coords|);
      ConnectLadder(m, ogroup, size, t);
      r := Pass;
    }

    /** `calc_triangles()`: may run once. */
    method CalcTriangles(m: Mesh) returns (r: Outcome<GroupError>)
      requires Valid() && m.Valid() && Within(|m.coords|)
      modifies this
      ensures Valid()
      ensures nodes == old(nodes) && ogroup == old(ogroup) && ordered == old(ordered) && size == old(size)
      ensures old(triangles).Some? ==> r == Fail(AlreadyCalculated) && triangles == old(triangles)
      ensures old(triangles).None? ==> r.Pass? && triangles.Some?
      ensures old(triangles).None? ==>
                && NoDup(triangles.value)
                && (forall tr | tr in triangles.value ::
                      FaceTriangle(m.edges, m.incident, nodes, tr.p0, tr.p1, tr.p2))
                && (forall x: nat, y: nat, z: nat | FaceTriangle(m.edges, m.incident, nodes, x, y, z) ::
                      Triangle(x, y, z) in triangles.value)
    {
      if triangles.Some? {
        return Fail(AlreadyCalculated);
      }
      var list := ScanTriangles(m, nodes);
      triangles := Some(list);
      r := Pass;
    }
  }

  /** The three loops of `calc_triangles`: every face triangle, once. */
  method ScanTriangles(m: Mesh, nodes: seq<nat>) returns (list: seq<Triangle<nat>>)
    requires m.Valid() && AllBelow(nodes, |m.coords|)
    ensures TrianglesSound(m.edges, m.incident, nodes, list)
    ensures forall x: nat, y: nat, z: nat | FaceTriangle(m.edges, m.incident, nodes, x, y, z) ::
              Triangle(x, y, z) in list
  {
    list := [];
    for a := 0 to |nodes|
      invariant TrianglesSound(m.edges, m.incident, nodes, list)
      invariant forall x: nat, y: nat, z: nat | FaceTriangle(m.edges, m.incident, nodes, x, y, z) && x in nodes[..a] ::
                  Triangle(x, y, z) in list
    {
      list := AddTrianglesFrom(m, nodes, nodes[a], list);
      assert nodes[..a + 1] == nodes[..a] + [nodes[a]];
    }
    assert nodes[..|nodes|] == nodes;
  }

  /** No triangle is recorded twice, and each is a face triangle. */
  ghost predicate TrianglesSound(edges: seq<Edge>, incident: seq<seq<nat>>, nodes: seq<nat>, list: seq<Triangle<nat>>) {
    && NoDup(list)
    && forall tr | tr in list :: FaceTriangle(edges, incident, nodes, tr.p0, tr.p1, tr.p2)
  }

  /** The innermost loop of `calc_triangles`: the partners of n2 that are
      members and partners of n1 close a triangle. */
  method AddTrianglesThrough(m: Mesh, nodes: seq<nat>, n1: nat, n2: nat, list: seq<Triangle<nat>>)
    returns (r: seq<Triangle<nat>>)
    requires m.Valid() && n1 in nodes && n2 in nodes && PartnerOf(m.edges, m.incident, n1, n2)
    requires TrianglesSound(m.edges, m.incident, nodes, list)
    ensures TrianglesSound(m.edges, m.incident, nodes, r)
    ensures forall tr | tr in list :: tr in r
    ensures forall z: nat | FaceTriangle(m.edges, m.incident, nodes, n1, n2, z) :: Triangle(n1, n2, z) in r
  {
    var ps1 := Partners(m.edges, m.incident[n1], n1);
    var ps2 := Partners(m.edges, m.incident[n2], n2);
    r := list;
    for c := 0 to |ps2|
      invariant TrianglesSound(m.edges, m.incident, nodes, r)
      invariant forall tr | tr in list :: tr in r
      invariant forall z: nat | FaceTriangle(m.edges, m.incident, nodes, n1, n2, z) && z in ps2[..c] ::
                  Triangle(n1, n2, z) in r
    {
      var n3 := ps2[c];
      if n3 in nodes && n3 in ps1 {
        var tr := Triangle(n1, n2, n3);
        if tr !in r {
          r := r + [tr];
        }
      }
      assert ps2[..c + 1] == ps2[..c] + [n3];
    }
    assert ps2[..|ps2|] == ps2;
  }

  /** The two inner loops of `calc_triangles` for one member n1. */
  method AddTrianglesFrom(m: Mesh, nodes: seq<nat>, n1: nat, list: seq<Triangle<nat>>)
    returns (r: seq<Triangle<nat>>)
    requires m.Valid() && n1 in nodes && AllBelow(nodes, |m.coords|)
    requires TrianglesSound(m.edges, m.incident, nodes, list)
    ensures TrianglesSound(m.edges, m.incident, nodes, r)
    ensures forall tr | tr in list :: tr in r
    ensures forall y: nat, z: nat | FaceTriangle(m.edges, m.incident, nodes, n1, y, z) :: Triangle(n1, y, z) in r
  {
    assert n1 < |m.incident|;
    var ps1 := Partners(m.edges, m.incident[n1], n1);
    r := list;
    for b := 0 to |ps1|
      invariant TrianglesSound(m.edges, m.incident, nodes, r)
      invariant forall tr | tr in list :: tr in r
      invariant forall y: nat, z: nat | FaceTriangle(m.edges, m.incident, nodes, n1, y, z) && y in ps1[..b] ::
                  Triangle(n1, y, z) in r
    {
      var n2 := ps1[b];
      if n2 in nodes {
        r := AddTrianglesThrough(m, nodes, n1, n2, r);
      }
      assert ps1[..b + 1] == ps1[..b] + [n2];
    }
    assert ps1[..|ps1|] == ps1;
  }

  lemma LinkedAtPrefix(before: seq<Edge>, after: seq<Edge>, og: seq<nat>, p: (nat, nat), t: EdgeType)
    requires before <= after && p.0 < |og| && p.1 < |og|
    requires LinkedAt(before, og, p, t)
    ensures LinkedAt(after, og, p, t)
  {
    if og[p.0] != og[p.1] {
      ConnectedPrefix(before, after, og[p.0], og[p.1], t);
    }
  }

  /** The graphical edges `inter_connect` promises over an ordered group. */
  ghost predicate LadderLinked(edges: seq<Edge>, g: Group)
    reads g
  {
    && 1 <= g.size <= |g.ogroup|
    && forall q | q in Ladder(g.size) :: LinkedAt(edges, g.ogroup, q, Graphical)
  }

  lemma LadderLinkedGrows(edges: seq<Edge>, bigger: seq<Edge>, g: Group)
    requires LadderLinked(edges, g) && edges <= bigger
    ensures LadderLinked(bigger, g)
  {
    forall q | q in Ladder(g.size)
      ensures LinkedAt(bigger, g.ogroup, q, Graphical)
    {
      LinkedAtPrefix(edges, bigger, g.ogroup, q, Graphical);
    }
  }
}
