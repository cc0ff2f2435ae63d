/** The earlier polyhedron module (the top-level polyhedron.py): two
    helpers on lists of triangles, and a Chaikin pass whose rebuilt faces
    are found from the connections between sub-nodes rather than from the
    nearest-sub-node rule. Its node-cutting loop is the same code as the
    current pass's first loop and is `ChaikinPass.TruncateAll` here. */
module LegacyPolyhedra {
  import opened Common
  import opened MeshGraph
  import opened ChaikinGroups
  import opened Truncation
  import opened Polyhedra
  import opened ChaikinPass

  // ---------------------------------------------------------------------
  // Lists of triangles

  /** `v in triangle`: v is one of the three corners. */
  predicate HasCorner(t: Triangle<nat>, v: nat) {
    v == t.p0 || v == t.p1 || v == t.p2
  }

  /** Every corner of `a` is a corner of `b`. */
  predicate CornersIn(a: Triangle<nat>, b: Triangle<nat>) {
    HasCorner(b, a.p0) && HasCorner(b, a.p1) && HasCorner(b, a.p2)
  }

  lemma CornersInTransitive(a: Triangle<nat>, b: Triangle<nat>, c: Triangle<nat>)
    requires CornersIn(a, b) && CornersIn(b, c)
    ensures CornersIn(a, c)
  {
  }

  /** Some entry of `list` holds all three corners of `t`. */
  predicate Covered(list: seq<Triangle<nat>>, t: Triangle<nat>) {
    exists k | 0 <= k < |list| :: CornersIn(t, list[k])
  }

  /** `_triangle_in_list(list, t)`: t itself is in the list, or some entry
      holds its three corners. The first test adds nothing: an equal entry
      holds the corners too. */
  method TriangleInList(list: seq<Triangle<nat>>, t: Triangle<nat>) returns (b: bool)
    ensures b <==> (t in list || Covered(list, t))
    ensures b <==> Covered(list, t)
  {
    if t in list {
      var k :| 0 <= k < |list| && list[k] == t;
      assert CornersIn(t, list[k]);
      return true;
    }
    for k := 0 to |list|
      invariant forall j | 0 <= j < k :: !CornersIn(t, list[j])
    {
      if HasCorner(list[k], t.p0) && HasCorner(list[k], t.p1) && HasCorner(list[k], t.p2) {
        return true;
      }
    }
    return false;
  }

  /** What `unique_triangles` makes of the list `kept + rest` with its
      cursor after `kept`: the entry under the cursor is dropped when the
      other entries still in the list hold its corners, kept otherwise. */
  function Unique(kept: seq<Triangle<nat>>, rest: seq<Triangle<nat>>): seq<Triangle<nat>>
    decreases |rest|
  {
    if rest == [] then kept
    else if Covered(kept + rest[1..], rest[0]) then Unique(kept, rest[1..])
    else Unique(kept + [rest[0]], rest[1..])
  }

  /** `a` is `b` with some entries removed. */
  predicate Subsequence<T(==)>(a: seq<T>, b: seq<T>)
    decreases |b|
  {
    a == [] || (b != [] && ((a[0] == b[0] && Subsequence(a[1..], b[1..])) || Subsequence(a, b[1..])))
  }

  /** No entry holds the corners of another. */
  predicate Apart(s: seq<Triangle<nat>>) {
    forall i, j | 0 <= i < |s| && 0 <= j < |s| && i != j :: !CornersIn(s[i], s[j])
  }

  /** The settled entries stay in front, in order, and the rest is a
      subsequence of what followed them. */
  lemma {:induction false} UniqueKeepsOrder(kept: seq<Triangle<nat>>, rest: seq<Triangle<nat>>)
    ensures var u := Unique(kept, rest);
            |kept| <= |u| && u[..|kept|] == kept && Subsequence(u[|kept|..], rest)
    decreases |rest|
  {
    if rest != [] {
      var u := Unique(kept, rest);
      if Covered(kept + rest[1..], rest[0]) {
        UniqueKeepsOrder(kept, rest[1..]);
      } else {
        UniqueKeepsOrder(kept + [rest[0]], rest[1..]);
        var s := u[|kept|..];
        assert s[0] == rest[0] && s[1..] == u[|kept| + 1..];
      }
    }
  }

  /** Settled entries that hold no one else's corners, and whose corners
      no later entry holds, stay that way: the result is `Apart`. */
  lemma {:induction false} UniqueApart(kept: seq<Triangle<nat>>, rest: seq<Triangle<nat>>)
    requires Apart(kept)
    requires forall i, j | 0 <= i < |kept| && 0 <= j < |rest| :: !CornersIn(kept[i], rest[j])
    ensures Apart(Unique(kept, rest))
    decreases |rest|
  {
    if rest != [] {
      if Covered(kept + rest[1..], rest[0]) {
        UniqueApart(kept, rest[1..]);
      } else {
        var t := rest[0];
        var kept' := kept + [t];
        forall i, j | 0 <= i < |kept'| && 0 <= j < |kept'| && i != j
          ensures !CornersIn(kept'[i], kept'[j])
        {
          if j == |kept| {
            assert !CornersIn(kept[i], rest[0]);
          } else if i == |kept| {
            assert (kept + rest[1..])[j] == kept[j];
          }
        }
        forall i, j | 0 <= i < |kept'| && 0 <= j < |rest[1..]|
          ensures !CornersIn(kept'[i], rest[1..][j])
        {
          if i == |kept| {
            assert (kept + rest[1..])[|kept| + j] == rest[1..][j];
          } else {
            assert rest[1..][j] == rest[j + 1];
          }
        }
        UniqueApart(kept', rest[1..]);
      }
    }
  }

  /** Nothing is lost: the corners of every entry of the list are held by
      some entry of the result. */
  lemma {:induction false} UniqueCovers(kept: seq<Triangle<nat>>, rest: seq<Triangle<nat>>)
    ensures forall x | x in kept + rest :: Covered(Unique(kept, rest), x)
    decreases |rest|
  {
    if rest != [] {
      var u := Unique(kept, rest);
      if Covered(kept + rest[1..], rest[0]) {
        UniqueCovers(kept, rest[1..]);
        forall x | x in kept + rest
          ensures Covered(u, x)
        {
          if x !in kept + rest[1..] {
            assert x == rest[0];
            var k :| 0 <= k < |kept + rest[1..]| && CornersIn(x, (kept + rest[1..])[k]);
            var y := (kept + rest[1..])[k];
            assert Covered(u, y);
            var j :| 0 <= j < |u| && CornersIn(y, u[j]);
            CornersInTransitive(x, y, u[j]);
          }
        }
      } else {
        UniqueCovers(kept + [rest[0]], rest[1..]);
        assert kept + [rest[0]] + rest[1..] == kept + rest;
      }
    }
  }

  /** Of two entries with the same corners the later one is kept: an entry
      whose corners a later entry holds is dropped, and dropping it
      beforehand changes nothing. */
  lemma {:induction false} UniqueDropsEarlierCopy(kept: seq<Triangle<nat>>, a: seq<Triangle<nat>>,
                                                  t: Triangle<nat>, b: seq<Triangle<nat>>)
    requires Covered(b, t)
    ensures Unique(kept, a + [t] + b) == Unique(kept, a + b)
    decreases |a|
  {
    if a == [] {
      assert ([t] + b)[1..] == b;
      CoveredInSuffix(kept, b, t);
      assert a + [t] + b == [t] + b && a + b == b;
    } else {
      var x := a[0];
      var whole, short := a + [t] + b, a + b;
      assert whole[0] == x && whole[1..] == a[1..] + [t] + b;
      assert short[0] == x && short[1..] == a[1..] + b;
      assert kept + whole[1..] == (kept + a[1..]) + [t] + b;
      assert kept + short[1..] == (kept + a[1..]) + b;
      CoveredWithoutCopy(kept + a[1..], t, b, x);
      if Covered(kept + whole[1..], x) {
        assert Unique(kept, whole) == Unique(kept, a[1..] + [t] + b);
        assert Unique(kept, short) == Unique(kept, a[1..] + b);
        UniqueDropsEarlierCopy(kept, a[1..], t, b);
      } else {
        assert Unique(kept, whole) == Unique(kept + [x], a[1..] + [t] + b);
        assert Unique(kept, short) == Unique(kept + [x], a[1..] + b);
        UniqueDropsEarlierCopy(kept + [x], a[1..], t, b);
      }
    }
  }

  lemma CoveredInSuffix(p: seq<Triangle<nat>>, b: seq<Triangle<nat>>, t: Triangle<nat>)
    requires Covered(b, t)
    ensures Covered(p + b, t)
  {
    var k :| 0 <= k < |b| && CornersIn(t, b[k]);
    assert (p + b)[|p| + k] == b[k];
  }

  /** An entry whose corners a later entry holds covers nothing that the
      list without it does not. */
  lemma CoveredWithoutCopy(p: seq<Triangle<nat>>, t: Triangle<nat>, b: seq<Triangle<nat>>, x: Triangle<nat>)
    requires Covered(b, t)
    ensures Covered(p + [t] + b, x) <==> Covered(p + b, x)
  {
    var whole, short := p + [t] + b, p + b;
    if Covered(whole, x) {
      var k :| 0 <= k < |whole| && CornersIn(x, whole[k]);
      if k == |p| {
        var j :| 0 <= j < |b| && CornersIn(t, b[j]);
        CornersInTransitive(x, t, b[j]);
        assert short[|p| + j] == b[j];
      } else if k < |p| {
        assert short[k] == whole[k];
      } else {
        assert short[k - 1] == whole[k];
      }
    }
    if Covered(short, x) {
      var k :| 0 <= k < |short| && CornersIn(x, short[k]);
      if k < |p| {
        assert whole[k] == short[k];
      } else {
        assert whole[k + 1] == short[k];
      }
    }
  }

  /** `unique_triangles(triangles)`: the pop / test / re-insert loop. The
      list keeps its order, no entry of the result holds the corners of
      another, and every entry's corners are still held by the result. */
  method UniqueTriangles(triangles: seq<Triangle<nat>>) returns (r: seq<Triangle<nat>>)
    ensures r == Unique([], triangles)
    ensures Subsequence(r, triangles)
    ensures Apart(r)
    ensures forall x | x in triangles :: Covered(r, x)
  {
    r := triangles;
    var index, length := 0, |triangles|;
    while index < length
      invariant index <= length == |r|
      invariant Unique(r[..index], r[index..]) == Unique([], triangles)
      decreases length - index
    {
      ghost var kept, rest := r[..index], r[index..];
      var t := r[index];
      r := r[..index] + r[index + 1..];
      assert r == kept + rest[1..];
      var found := TriangleInList(r, t);
      if found {
        length := length - 1;
        assert r[..index] == kept && r[index..] == rest[1..];
      } else {
        r := r[..index] + [t] + r[index..];
        index := index + 1;
        assert r[..index] == kept + [t] && r[index..] == rest[1..];
      }
    }
    assert r[..index] == r && r[index..] == [];
    UniqueKeepsOrder([], triangles);
    UniqueApart([], triangles);
    UniqueCovers([], triangles);
    assert [] + triangles == triangles;
  }

  // ---------------------------------------------------------------------
  // Rebuilding a face from the connections of its sub-nodes

  /** Sub-node `s` of old node `o` is joined, by an edge of any type, to a
      sub-node of some other node of the face `items`. */
  ghost predicate LinkedToOther(edges: seq<Edge>, virt: map<nat, seq<nat>>, items: seq<nat>, o: nat, s: nat) {
    exists k, j | 0 <= k < |items| && items[k] != o && items[k] in virt && 0 <= j < |virt[items[k]]| ::
      Linked(edges, s, virt[items[k]][j])
  }

  /** The inner search over the other nodes of the face, in face order: the
      first one with a sub-node joined to `s` ends it; a node that is not a
      key of `virt` fails it with the dictionary's KeyError. */
  function Touches(edges: seq<Edge>, virt: map<nat, seq<nat>>, others: seq<nat>, o: nat, s: nat): (r: Result<bool, PassError>)
    ensures r.Err? ==> r.error.MissingCorner? && r.error.node in others && r.error.node !in virt
    ensures (forall k | 0 <= k < |others| :: others[k] in virt) ==> r.Ok?
    decreases |others|
  {
    if others == [] then Ok(false)
    else if others[0] == o then Touches(edges, virt, others[1..], o, s)
    else if others[0] !in virt then Err(MissingCorner(others[0]))
    else if exists j | 0 <= j < |virt[others[0]]| :: Linked(edges, s, virt[others[0]][j]) then Ok(true)
    else Touches(edges, virt, others[1..], o, s)
  }

  /** A search that ends without error answers whether `s` is joined to a
      sub-node of another node of the face. */
  lemma {:induction false} TouchesMeaning(edges: seq<Edge>, virt: map<nat, seq<nat>>, others: seq<nat>, o: nat, s: nat)
    requires Touches(edges, virt, others, o, s).Ok?
    ensures Touches(edges, virt, others, o, s).value <==> LinkedToOther(edges, virt, others, o, s)
    decreases |others|
  {
    if others != [] {
      var tail := others[1..];
      if others[0] == o || !exists j | 0 <= j < |virt[others[0]]| :: Linked(edges, s, virt[others[0]][j]) {
        TouchesMeaning(edges, virt, tail, o, s);
        if LinkedToOther(edges, virt, others, o, s) {
          var k, j :| 0 <= k < |others| && others[k] != o && others[k] in virt && 0 <= j < |virt[others[k]]|
                      && Linked(edges, s, virt[others[k]][j]);
          assert k != 0;
          assert tail[k - 1] == others[k];
        }
        if LinkedToOther(edges, virt, tail, o, s) {
          var k, j :| 0 <= k < |tail| && tail[k] != o && tail[k] in virt && 0 <= j < |virt[tail[k]]|
                      && Linked(edges, s, virt[tail[k]][j]);
          assert others[k + 1] == tail[k];
        }
      } else {
        var j :| 0 <= j < |virt[others[0]]| && Linked(edges, s, virt[others[0]][j]);
        assert others[0] != o && others[0] in virt;
      }
    }
  }

  /** The sub-nodes among the first `count` of `subs` that the search
      finds joined to another node of the face, in order, or the first
      error of a search. */
  function LinkedSubs(edges: seq<Edge>, virt: map<nat, seq<nat>>, items: seq<nat>, o: nat, subs: seq<nat>, count: nat)
    : (r: Result<seq<nat>, PassError>)
    requires count <= |subs|
    ensures r.Ok? <==> forall j | 0 <= j < count :: Touches(edges, virt, items, o, subs[j]).Ok?
    ensures r.Err? ==> exists j | 0 <= j < count :: Touches(edges, virt, items, o, subs[j]) == Err(r.error)
    ensures r.Ok? ==> forall x :: x in r.value <==>
              exists j | 0 <= j < count :: subs[j] == x && Touches(edges, virt, items, o, x) == Ok(true)
    ensures r.Ok? && NoDup(subs) ==> NoDup(r.value)
  {
    if count == 0 then Ok([])
    else
      match LinkedSubs(edges, virt, items, o, subs, count - 1)
      case Err(e) => Err(e)
      case Ok(prev) =>
        match Touches(edges, virt, items, o, subs[count - 1])
        case Err(e) => Err(e)
        case Ok(b) => Ok(if b then prev + [subs[count - 1]] else prev)
  }

  lemma {:induction false} LinkedSubsFailure(edges: seq<Edge>, virt: map<nat, seq<nat>>, items: seq<nat>, o: nat,
                                             subs: seq<nat>, i: nat, count: nat)
    requires i <= count <= |subs|
    requires LinkedSubs(edges, virt, items, o, subs, i).Err?
    ensures LinkedSubs(edges, virt, items, o, subs, count) == LinkedSubs(edges, virt, items, o, subs, i)
    decreases count - i
  {
    if i < count {
      LinkedSubsFailure(edges, virt, items, o, subs, i, count - 1);
    }
  }

  /** What old node `o` gives the rebuilt face: its sub-nodes found joined
      to another node of the face when there are exactly two of them, and
      nothing otherwise (the "Bizarre group" branch). */
  function NodePair(edges: seq<Edge>, virt: map<nat, seq<nat>>, items: seq<nat>, o: nat): (r: Result<seq<nat>, PassError>)
    ensures r.Err? ==> r.error.MissingCorner?
    ensures o in virt && (forall k | 0 <= k < |items| :: items[k] in virt) ==> r.Ok?
    ensures r.Ok? ==> o in virt && (r.value == [] || |r.value| == 2)
    ensures r.Ok? ==> forall x | x in r.value :: x in virt[o]
  {
    if o !in virt then Err(MissingCorner(o))
    else
      match LinkedSubs(edges, virt, items, o, virt[o], |virt[o]|)
      case Err(e) => Err(e)
      case Ok(kept) => Ok(if |kept| == 2 then kept else [])
  }

  /** The sub-nodes of `o` joined to a sub-node of another node of the face. */
  ghost function LinkedSubNodes(edges: seq<Edge>, virt: map<nat, seq<nat>>, items: seq<nat>, o: nat): set<nat>
    requires o in virt
  {
    set x | x in virt[o] && LinkedToOther(edges, virt, items, o, x)
  }

  /** The elements of a sequence, as a set. */
  ghost function Members(s: seq<nat>): set<nat> {
    set x | x in s
  }

  lemma {:induction false} DistinctCount(s: seq<nat>)
    requires NoDup(s)
    ensures |Members(s)| == |s|
  {
    if s == [] {
      assert Members(s) == {};
    } else {
      var init, last := s[..|s| - 1], s[|s| - 1];
      assert NoDup(init);
      DistinctCount(init);
      assert s == init + [last];
      assert Members(s) == Members(init) + {last};
      assert last !in Members(init);
    }
  }

  /** An old node whose sub-nodes are distinct, in a face whose nodes all
      have sub-nodes, gives exactly the sub-nodes joined to another node of
      the face when there are two of them, and nothing otherwise. */
  lemma NodePairMeaning(edges: seq<Edge>, virt: map<nat, seq<nat>>, items: seq<nat>, o: nat)
    requires o in virt && NoDup(virt[o]) && forall k | 0 <= k < |items| :: items[k] in virt
    ensures NodePair(edges, virt, items, o).Ok?
    ensures |LinkedSubNodes(edges, virt, items, o)| == 2 ==>
              var pair := NodePair(edges, virt, items, o).value;
              |pair| == 2 && pair[0] != pair[1] && forall x :: x in pair <==> x in LinkedSubNodes(edges, virt, items, o)
    ensures |LinkedSubNodes(edges, virt, items, o)| != 2 ==> NodePair(edges, virt, items, o).value == []
  {
    var subs := virt[o];
    var kept := LinkedSubs(edges, virt, items, o, subs, |subs|).value;
    forall x
      ensures x in kept <==> x in LinkedSubNodes(edges, virt, items, o)
    {
      if x in subs {
        TouchesMeaning(edges, virt, items, o, x);
      }
    }
    assert Members(kept) == LinkedSubNodes(edges, virt, items, o);
    DistinctCount(kept);
  }

  /** The raw node list of the rebuilt face after the first `count` old
      nodes of the face: their contributions in turn, or the first error. */
  function SurfaceItems(edges: seq<Edge>, virt: map<nat, seq<nat>>, items: seq<nat>, count: nat): (r: Result<seq<nat>, PassError>)
    requires count <= |items|
    ensures r.Ok? <==> forall i | 0 <= i < count :: NodePair(edges, virt, items, items[i]).Ok?
    ensures r.Err? ==> exists i | 0 <= i < count :: NodePair(edges, virt, items, items[i]) == Err(r.error)
    ensures r.Ok? ==> forall x :: x in r.value <==>
              exists i | 0 <= i < count :: x in NodePair(edges, virt, items, items[i]).value
  {
    if count == 0 then Ok([])
    else
      match SurfaceItems(edges, virt, items, count - 1)
      case Err(e) => Err(e)
      case Ok(prev) =>
        match NodePair(edges, virt, items, items[count - 1])
        case Err(e) => Err(e)
        case Ok(pair) => Ok(prev + pair)
  }

  lemma {:induction false} SurfaceItemsFailure(edges: seq<Edge>, virt: map<nat, seq<nat>>, items: seq<nat>, i: nat, count: nat)
    requires i <= count <= |items|
    requires SurfaceItems(edges, virt, items, i).Err?
    ensures SurfaceItems(edges, virt, items, count) == SurfaceItems(edges, virt, items, i)
    decreases count - i
  {
    if i < count {
      SurfaceItemsFailure(edges, virt, items, i, count - 1);
    }
  }

  /** A face whose nodes all have sub-nodes always gives a node list, made
      of arena handles. */
  lemma SurfaceItemsBelow(edges: seq<Edge>, virt: map<nat, seq<nat>>, items: seq<nat>, count: nat, n: nat)
    requires count <= |items| && VirtBelow(virt, n)
    ensures (forall k | 0 <= k < |items| :: items[k] in virt) ==> SurfaceItems(edges, virt, items, count).Ok?
    ensures SurfaceItems(edges, virt, items, count).Ok? ==> AllBelow(SurfaceItems(edges, virt, items, count).value, n)
  {
    var r := SurfaceItems(edges, virt, items, count);
    if r.Ok? {
      forall k | 0 <= k < |r.value|
        ensures r.value[k] < n
      {
        var x := r.value[k];
        assert x in r.value;
        var i :| 0 <= i < count && x in NodePair(edges, virt, items, items[i]).value;
        var j :| 0 <= j < |virt[items[i]]| && virt[items[i]][j] == x;
      }
    }
  }

  // The loops of the resurfacing, on the arena's edge table

  /** `len([... if are_connected(s, x)]) > 0`: some sub-node of the list is
      joined to `s`. */
  method AnyLinked(m: Mesh, s: nat, subs: seq<nat>) returns (b: bool)
    ensures b <==> exists j | 0 <= j < |subs| :: Linked(m.edges, s, subs[j])
  {
    var count := 0;
    for j := 0 to |subs|
      invariant count > 0 <==> exists i | 0 <= i < j :: Linked(m.edges, s, subs[i])
    {
      if Linked(m.edges, s, subs[j]) {
        count := count + 1;
      }
    }
    b := count > 0;
  }

  /** The `for other_old_node in old_group` loop with its `break`. */
  method TouchesOther(m: Mesh, virt: map<nat, seq<nat>>, items: seq<nat>, o: nat, s: nat) returns (r: Result<bool, PassError>)
    ensures r == Touches(m.edges, virt, items, o, s)
  {
    for k := 0 to |items|
      invariant Touches(m.edges, virt, items, o, s) == Touches(m.edges, virt, items[k..], o, s)
    {
      assert items[k..][0] == items[k] && items[k..][1..] == items[k + 1..];
      if items[k] != o {
        if items[k] !in virt {
          return Err(MissingCorner(items[k]));
        }
        var hit := AnyLinked(m, s, virt[items[k]]);
        if hit {
          return Ok(true);
        }
      }
    }
    assert items[|items|..] == [];
    r := Ok(false);
  }

  /** The loop over the sub-nodes of old node `o`, then the test on
      `len(two_nodes) == 2`. */
  method PickPair(m: Mesh, virt: map<nat, seq<nat>>, items: seq<nat>, o: nat) returns (r: Result<seq<nat>, PassError>)
    ensures r == NodePair(m.edges, virt, items, o)
  {
    if o !in virt {
      return Err(MissingCorner(o));
    }
    var subs := virt[o];
    var two: seq<nat> := [];
    for j := 0 to |subs|
      invariant LinkedSubs(m.edges, virt, items, o, subs, j) == Ok(two)
    {
      var found := TouchesOther(m, virt, items, o, subs[j]);
      if found.Err? {
        LinkedSubsFailure(m.edges, virt, items, o, subs, j + 1, |subs|);
        return Err(found.error);
      }
      if found.value {
        two := two + [subs[j]];
      }
    }
    if |two| == 2 {
      r := Ok(two);
    } else {
      r := Ok([]);
    }
  }

  /** The members of each old face, in the face's own iteration order. */
  function ItemsOf(gs: seq<Group>): (r: seq<seq<nat>>)
    reads gs
    ensures |r| == |gs| && forall a | 0 <= a < |gs| :: r[a] == gs[a].Items()
  {
    seq(|gs|, a requires 0 <= a < |gs| reads gs => gs[a].Items())
  }

  /** The node list of each old face, or its error. */
  function SurfaceRuns(edges: seq<Edge>, virt: map<nat, seq<nat>>, lists: seq<seq<nat>>)
    : (rs: seq<Result<seq<nat>, PassError>>)
    ensures |rs| == |lists| && forall a | 0 <= a < |lists| :: rs[a] == SurfaceItems(edges, virt, lists[a], |lists[a]|)
  {
    seq(|lists|, a requires 0 <= a < |lists| => SurfaceItems(edges, virt, lists[a], |lists[a]|))
  }

  /** What the earlier resurfacing loop comes to: Pass exactly when the node
      list of every old face can be built; otherwise the error of the first
      face whose list cannot. */
  ghost predicate LegacyResurfacesTo(r: Outcome<PassError>, edges: seq<Edge>, virt: map<nat, seq<nat>>, lists: seq<seq<nat>>)
  {
    && (r.Pass? <==> forall a | 0 <= a < |lists| :: SurfaceItems(edges, virt, lists[a], |lists[a]|).Ok?)
    && (r.Fail? ==> exists k | 0 <= k < |lists| ::
          && (forall a | 0 <= a < k :: SurfaceItems(edges, virt, lists[a], |lists[a]|).Ok?)
          && SurfaceItems(edges, virt, lists[k], |lists[k]|) == Err(r.error))
  }

  /** The earlier resurfacing loop, on values: the error of the first old
      face whose node list cannot be built, or Pass. */
  function LegacyRun(edges: seq<Edge>, virt: map<nat, seq<nat>>, lists: seq<seq<nat>>): (r: Outcome<PassError>)
    ensures LegacyResurfacesTo(r, edges, virt, lists)
  {
    FirstError(SurfaceRuns(edges, virt, lists))
  }

  /** The rebuilt face of an old face with members `items`: a new,
      unordered group over its node list deduplicated. */
  ghost predicate LegacySurfaceOk(s: Group, edges: seq<Edge>, n: nat, virt: map<nat, seq<nat>>, items: seq<nat>)
    reads s
  {
    && SurfaceItems(edges, virt, items, |items|).Ok?
    && s.nodes == Dedup(SurfaceItems(edges, virt, items, |items|).value)
    && s.Valid() && s.Within(n)
    && !s.ordered && s.ogroup == [] && s.triangles == None
  }

  /** One iteration of the resurfacing loop: the face's node list, read in
      the face's own iteration order, then `Group(new_group)`. Nothing is
      connected. */
  method LegacySurface(m: Mesh, virt: map<nat, seq<nat>>, g: Group) returns (r: Result<Group, PassError>)
    requires VirtBelow(virt, |m.coords|)
    ensures r.Err? ==> SurfaceItems(m.edges, virt, g.Items(), |g.Items()|) == Err(r.error)
    ensures r.Ok? ==> fresh(r.value) && LegacySurfaceOk(r.value, m.edges, |m.coords|, virt, g.Items())
  {
    var items := g.Items();
    var list: seq<nat> := [];
    ghost var raw: seq<nat> := [];
    for i := 0 to |items|
      invariant SurfaceItems(m.edges, virt, items, i) == Ok(raw) && list == Dedup(raw)
    {
      var pair := PickPair(m, virt, items, items[i]);
      if pair.Err? {
        SurfaceItemsFailure(m.edges, virt, items, i + 1, |items|);
        return Err(pair.error);
      }
      list := AppendNew(list, raw, pair.value);
      raw := raw + pair.value;
    }
    SurfaceItemsBelow(m.edges, virt, items, |items|, |m.coords|);
    AllBelowSubset(list, raw, |m.coords|);
    DedupOfDistinct(list);
    var s := new Group(list);
    r := Ok(s);
  }

  /** The surfaces built for the first |surfaces| old faces. */
  ghost predicate LegacySurfacesOk(surfaces: seq<Group>, oldGroups: seq<Group>, edges: seq<Edge>, n: nat,
                                   virt: map<nat, seq<nat>>)
    reads surfaces, oldGroups
  {
    && |surfaces| <= |oldGroups|
    && forall a | 0 <= a < |surfaces| :: LegacySurfaceOk(surfaces[a], edges, n, virt, oldGroups[a].Items())
  }

  /** The resurfacing loop: one new face group per old face. It changes
      neither the arena nor the old faces; the faces it builds are never
      ordered nor connected, since the list meant to collect them for that
      stays empty. */
  method LegacyResurfaceAll(m: Mesh, oldGroups: seq<Group>, virt: map<nat, seq<nat>>)
    returns (r: Outcome<PassError>, surfaces: seq<Group>)
    requires VirtBelow(virt, |m.coords|)
    ensures r.Fail? ==> r.error.MissingCorner?
    ensures LegacyResurfacesTo(r, m.edges, virt, ItemsOf(oldGroups))
    ensures r.Pass? ==>
              && |surfaces| == |oldGroups| && NoDup(surfaces)
              && fresh(set s | s in surfaces)
              && LegacySurfacesOk(surfaces, oldGroups, m.edges, |m.coords|, virt)
  {
    ghost var lists := ItemsOf(oldGroups);
    surfaces := [];
    for k := 0 to |oldGroups|
      invariant |surfaces| == k && NoDup(surfaces)
      invariant fresh(set s | s in surfaces)
      invariant LegacySurfacesOk(surfaces, oldGroups, m.edges, |m.coords|, virt)
    {
      var one := LegacySurface(m, virt, oldGroups[k]);
      if one.Err? {
        forall a | 0 <= a < k
          ensures SurfaceItems(m.edges, virt, lists[a], |lists[a]|).Ok?
        {
          assert LegacySurfaceOk(surfaces[a], m.edges, |m.coords|, virt, oldGroups[a].Items());
        }
        return Fail(one.error), surfaces;
      }
      var s := one.value;
      assert s !in surfaces;
      NoDupSnoc(surfaces, s);
      LegacySurfacesSnoc(surfaces, s, oldGroups, m.edges, |m.coords|, virt);
      surfaces := surfaces + [s];
    }
    forall a | 0 <= a < |lists|
      ensures SurfaceItems(m.edges, virt, lists[a], |lists[a]|).Ok?
    {
      assert LegacySurfaceOk(surfaces[a], m.edges, |m.coords|, virt, oldGroups[a].Items());
    }
    r := Pass;
  }

  lemma LegacySurfacesSnoc(surfaces: seq<Group>, s: Group, oldGroups: seq<Group>, edges: seq<Edge>, n: nat,
                           virt: map<nat, seq<nat>>)
    requires LegacySurfacesOk(surfaces, oldGroups, edges, n, virt) && |surfaces| < |oldGroups|
    requires LegacySurfaceOk(s, edges, n, virt, oldGroups[|surfaces|].Items())
    ensures LegacySurfacesOk(surfaces + [s], oldGroups, edges, n, virt)
  {
    var t := surfaces + [s];
    forall a | 0 <= a < |t|
      ensures LegacySurfaceOk(t[a], edges, n, virt, oldGroups[a].Items())
    {
      if a < |surfaces| {
        assert t[a] == surfaces[a];
        assert LegacySurfaceOk(surfaces[a], edges, n, virt, oldGroups[a].Items());
      } else {
        assert a == |surfaces| && t[a] == s;
      }
    }
  }

  /** `for sub_nodes in node_virt_dict.values(): new_node_list.extend(...)`:
      the dictionary's values in insertion order, which is the order of
      the old nodes. */
  method ConcatBlocks(virt: map<nat, seq<nat>>, oldNodes: seq<nat>) returns (list: seq<nat>)
    requires forall x | x in oldNodes :: x in virt
    ensures list == Flatten(Blocks(virt, oldNodes))
  {
    list := [];
    for i := 0 to |oldNodes|
      invariant list == Flatten(Blocks(virt, oldNodes[..i]))
    {
      assert Blocks(virt, oldNodes[..i + 1]) == Blocks(virt, oldNodes[..i]) + [virt[oldNodes[i]]];
      FlattenSnoc(Blocks(virt, oldNodes[..i]), virt[oldNodes[i]]);
      list := list + virt[oldNodes[i]];
    }
    assert oldNodes[..|oldNodes|] == oldNodes;
  }

  /** What the earlier pass leaves: the same truncated corners as the
      current pass, then one unordered, unconnected rebuilt face per old
      face; the new node list is the sub-node blocks in old-node order. */
  ghost predicate LegacySubdivided(m: Mesh, oldNodes: seq<nat>, oldGroups: seq<Group>, c0: nat,
                                   virt: map<nat, seq<nat>>, newNodes: seq<nat>, groups: seq<Group>)
    reads m, oldGroups, groups
  {
    && c0 <= |m.coords|
    && (forall x :: x in virt <==> x in oldNodes)
    && Collected(oldNodes, |oldNodes|, virt, newNodes, Blocks(virt, oldNodes), c0, |m.coords|)
    && NoDup(newNodes) && AllBelow(newNodes, |m.coords|)
    && |groups| == |oldNodes| + |oldGroups| && NoDup(groups)
    && (forall a | 0 <= a < |groups| :: groups[a].Valid() && groups[a].Within(|m.coords|))
    && CornersOk(groups[..|oldNodes|], Blocks(virt, oldNodes), m.edges, |m.coords|)
    && LegacySurfacesOk(groups[|oldNodes|..], oldGroups, m.edges, |m.coords|, virt)
  }

  ghost predicate LegacyPassed(m: Mesh, oldNodes: seq<nat>, oldGroups: seq<Group>, c0: nat,
                               virt: map<nat, seq<nat>>, newNodes: seq<nat>, groups: seq<Group>,
                               C0: seq<Geometry.Vec3>, E0: seq<Edge>, I0: seq<seq<nat>>, rs: Ratios)
    reads m, oldGroups, groups
  {
    && LegacySubdivided(m, oldNodes, oldGroups, c0, virt, newNodes, groups)
    && newNodes == Flatten(Blocks(virt, oldNodes))
    && CutAsSpecified(m.coords, m.edges, virt, C0, E0, I0, oldNodes, rs)
  }

  lemma LegacySubdividedFrom(m: Mesh, oldNodes: seq<nat>, oldGroups: seq<Group>, c0: nat, virt: map<nat, seq<nat>>,
                             newNodes: seq<nat>, blocks: seq<seq<nat>>, corners: seq<Group>, surfaces: seq<Group>)
    requires Collected(oldNodes, |oldNodes|, virt, newNodes, blocks, c0, |m.coords|)
    requires |corners| == |oldNodes| && |surfaces| == |oldGroups|
    requires NoDup(corners) && NoDup(surfaces) && forall g | g in corners :: g !in surfaces
    requires CornersOk(corners, blocks, m.edges, |m.coords|)
    requires LegacySurfacesOk(surfaces, oldGroups, m.edges, |m.coords|, virt)
    ensures newNodes == Flatten(Blocks(virt, oldNodes))
    ensures LegacySubdivided(m, oldNodes, oldGroups, c0, virt, newNodes, corners + surfaces)
  {
    var groups := corners + surfaces;
    NoDupConcat(corners, surfaces);
    assert groups[..|oldNodes|] == corners && groups[|oldNodes|..] == surfaces;
    BlocksCollected(oldNodes, virt, newNodes, blocks, c0, |m.coords|);
    forall a | 0 <= a < |groups|
      ensures groups[a].Valid() && groups[a].Within(|m.coords|)
    {
      if a < |corners| {
        assert CornerOk(corners[a], m.edges, |m.coords|, blocks[a]);
      } else {
        assert LegacySurfaceOk(surfaces[a - |corners|], m.edges, |m.coords|, virt, oldGroups[a - |corners|].Items());
      }
    }
  }

  /** The two loops of the earlier pass: the corner groups, then one rebuilt
      face per old face; the new node list is read off the dictionary. */
  method LegacySubdivide(m: Mesh, oldNodes: seq<nat>, oldGroups: seq<Group>, rs: Ratios)
    returns (r: Outcome<PassError>, groups: seq<Group>, virt: map<nat, seq<nat>>, newNodes: seq<nat>)
    requires m.Valid() && NoDup(oldNodes) && AllBelow(oldNodes, |m.coords|)
    modifies m
    ensures m.Valid()
    ensures r.Fail? ==> r.error.UnknownEdgeType? || r.error == GroupFailure(EmptyGroup) || r.error.MissingCorner?
    ensures !CornersPass(old(m.edges), old(m.incident), oldNodes, |oldNodes|) ==>
              && r.Fail? && (r.error.UnknownEdgeType? || r.error == GroupFailure(EmptyGroup))
              && exists k: nat :: FirstFailureAt(old(m.edges), old(m.incident), oldNodes, k) &&
                   (r.error.UnknownEdgeType? <==> HasUnknownEdge(old(m.edges), old(m.incident)[oldNodes[k]]))
    ensures CornersPass(old(m.edges), old(m.incident), oldNodes, |oldNodes|) ==>
              LegacyResurfacesTo(r, m.edges, virt, ItemsOf(oldGroups))
    ensures r.Pass? ==>
              && old(m.coords) <= m.coords && fresh(set g | g in groups)
              && LegacyPassed(m, oldNodes, oldGroups, old(|m.coords|), virt, newNodes, groups,
                              old(m.coords), old(m.edges), old(m.incident), rs)
  {
    ghost var c0 := |m.coords|;
    ghost var E0, I0 := m.edges, m.incident;
    var t, corners, virt', newNodes', blocks, failed := TruncateAll(m, oldNodes, rs);
    virt := virt';
    if t.Fail? {
      CornersPassMeaning(E0, I0, oldNodes, |oldNodes|);
      assert !CornersPass(E0, I0, oldNodes, |oldNodes|);
      return t, [], virt, [];
    }
    var surfaces;
    r, surfaces, newNodes := LegacyResurfaceBeside(m, oldNodes, oldGroups, c0, virt, newNodes', corners, blocks,
                                                  old(m.coords), old(m.edges), old(m.incident), rs);
    groups := corners + surfaces;
    if r.Pass? {
      forall g | g in groups
        ensures fresh(g)
      {
        if g !in corners {
          assert g in surfaces;
        }
      }
    }
  }

  /** The second half of a legacy pass: the surface groups, placed after the
      corner groups the first loop built. */
  method LegacyResurfaceBeside(m: Mesh, oldNodes: seq<nat>, oldGroups: seq<Group>, ghost c0: nat,
                               virt: map<nat, seq<nat>>, ghost newNodes': seq<nat>, corners: seq<Group>,
                               ghost blocks: seq<seq<nat>>, ghost C0: seq<Geometry.Vec3>, ghost E0: seq<Edge>,
                               ghost I0: seq<seq<nat>>, ghost rs: Ratios)
    returns (r: Outcome<PassError>, surfaces: seq<Group>, newNodes: seq<nat>)
    requires Collected(oldNodes, |oldNodes|, virt, newNodes', blocks, c0, |m.coords|)
    requires |corners| == |oldNodes| && NoDup(corners)
    requires CornersOk(corners, blocks, m.edges, |m.coords|)
    requires CutAsSpecified(m.coords, m.edges, virt, C0, E0, I0, oldNodes, rs)
    ensures r.Fail? ==> r.error.MissingCorner?
    ensures LegacyResurfacesTo(r, m.edges, virt, ItemsOf(oldGroups))
    ensures r.Pass? ==>
              && fresh(set g | g in surfaces)
              && LegacyPassed(m, oldNodes, oldGroups, c0, virt, newNodes, corners + surfaces, C0, E0, I0, rs)
  {
    assert (forall x | x in oldNodes :: x in virt) && VirtBelow(virt, |m.coords|) by {
      BlocksCollected(oldNodes, virt, newNodes', blocks, c0, |m.coords|);
    }
    r, surfaces := LegacyResurfaceAll(m, oldGroups, virt);
    if r.Fail? {
      return r, [], [];
    }
    newNodes := ConcatBlocks(virt, oldNodes);
    assert forall g | g in corners :: g !in surfaces;
    LegacySubdividedFrom(m, oldNodes, oldGroups, c0, virt, newNodes', blocks, corners, surfaces);
  }

  /** The earlier `Chaikin3D(polyhedron, n)`: the same ratios and the same
      corner cutting as the current pass, then the faces rebuilt from the
      sub-node connections. The arena is changed by the cutting only; the
      old faces are left as they were. */
  method LegacyChaikin3D(p: Polyhedron, n: real) returns (r: Result<Polyhedron, PassError>, ghost virt: map<nat, seq<nat>>)
    requires p.Valid()
    modifies p.mesh
    ensures PassRatios(n).Err? ==> r == Err(ZeroDivision) && unchanged(p.mesh)
    ensures r.Err? && PassRatios(n).Ok? ==>
              r.error.UnknownEdgeType? || r.error == GroupFailure(EmptyGroup) || r.error.MissingCorner?
    ensures PassRatios(n).Ok? && !CornersPass(old(p.mesh.edges), old(p.mesh.incident), p.nodes, |p.nodes|) ==>
              && r.Err? && (r.error.UnknownEdgeType? || r.error == GroupFailure(EmptyGroup))
              && exists k: nat :: FirstFailureAt(old(p.mesh.edges), old(p.mesh.incident), p.nodes, k) &&
                   (r.error.UnknownEdgeType? <==> HasUnknownEdge(old(p.mesh.edges), old(p.mesh.incident)[p.nodes[k]]))
    ensures PassRatios(n).Ok? && CornersPass(old(p.mesh.edges), old(p.mesh.incident), p.nodes, |p.nodes|) ==>
              LegacyResurfacesTo(if r.Ok? then Pass else Fail(r.error), p.mesh.edges, virt, ItemsOf(p.groups))
    ensures r.Ok? ==>
              && PassRatios(n).Ok?
              && fresh(r.value) && r.value.mesh == p.mesh && r.value.Valid()
              && old(p.mesh.coords) <= p.mesh.coords
              && LegacySubdivided(p.mesh, p.nodes, p.groups, old(|p.mesh.coords|), virt, r.value.nodes, r.value.groups)
              && r.value.nodes == Flatten(Blocks(virt, p.nodes))
              && CutAsSpecified(p.mesh.coords, p.mesh.edges, virt, old(p.mesh.coords), old(p.mesh.edges), old(p.mesh.incident),
                                p.nodes, PassRatios(n).value)
  {
    var ratios := PassRatios(n);
    if ratios.Err? {
      return Err(ratios.error), map[];
    }
    var s, groups, virt', nodes := LegacySubdivide(p.mesh, p.nodes, p.groups, ratios.value);
    virt := virt';
    if s.Fail? {
      return Err(s.error), virt;
    }
    var q := new Polyhedron(p.mesh, nodes, groups);
    r := Ok(q);
  }
}
