/** Index paths into the forest, as `PositionHierarchy` reads them: the
    first index picks a root group, the indexes between the first and the
    last follow `subgroups`, and the last index is read against the
    group's three-part child order. */
module Paths {
  import opened Tree

  datatype MoveError = NoIndex | GroupNotFound | OutOfBounds

  datatype Result<T> = Ok(value: T) | Err(error: MoveError)

  /** A resolved cursor: the item and its depth, one less than the path length. */
  datatype Found = Found(item: Item, depth: nat)

  /** Follows a route of subgroup indexes down from `g`. */
  function Walk(g: Group, route: seq<nat>): Option<Group>
    decreases |route|
  {
    if route == [] then Some(g)
    else if route[0] < |g.subgroups| then Walk(g.subgroups[route[0]], route[1..])
    else None
  }

  /** Walking one index further extends the walk by one subgroup step. */
  lemma {:induction false} WalkSnoc(g: Group, route: seq<nat>, i: nat)
    ensures Walk(g, route + [i])
         == match Walk(g, route)
            case None => None
            case Some(h) => if i < |h.subgroups| then Some(h.subgroups[i]) else None
    decreases |route|
  {
    if route == [] {
      assert route + [i] == [i];
      assert [i][1..] == [];
    } else {
      assert (route + [i])[1..] == route[1..] + [i];
      if route[0] < |g.subgroups| {
        WalkSnoc(g.subgroups[route[0]], route[1..], i);
      }
    }
  }

  /** A walk that fails on a prefix fails on every extension. */
  lemma {:induction false} WalkAppend(g: Group, a: seq<nat>, b: seq<nat>)
    ensures Walk(g, a + b) == match Walk(g, a) case None => None case Some(h) => Walk(h, b)
    decreases |a|
  {
    if a == [] {
      assert a + b == b;
    } else {
      assert (a + b)[1..] == a[1..] + b;
      if a[0] < |g.subgroups| {
        WalkAppend(g.subgroups[a[0]], a[1..], b);
      }
    }
  }

  /** `find_group`: the root `groups[p[0]]` for a one-index path, otherwise
      the group reached from that root through the indexes strictly
      between the first and the last. */
  function GroupOf(groups: seq<Group>, p: seq<nat>): (r: Result<Group>)
    requires |p| > 0
    ensures r.Err? ==> r.error == GroupNotFound
    ensures r.Ok? <==> p[0] < |groups| && (|p| == 1 || Walk(groups[p[0]], p[1..|p| - 1]).Some?)
  {
    if p[0] >= |groups| then Err(GroupNotFound)
    else if |p| == 1 then Ok(groups[p[0]])
    else
      match Walk(groups[p[0]], p[1..|p| - 1])
      case None => Err(GroupNotFound)
      case Some(g) => Ok(g)
  }

  /** `find_item`: a one-index path selects its root group; a longer one
      selects the child of `GroupOf` at the last index. A bad root or
      intermediate index is `GroupNotFound`, a last index past the
      group's children is `OutOfBounds`. */
  function ItemOf(groups: seq<Group>, p: seq<nat>): (r: Result<Found>)
    requires |p| > 0
    ensures r.Ok? ==> r.value.depth == |p| - 1
    ensures |p| == 1 ==> (r.Ok? <==> p[0] < |groups|)
    ensures |p| == 1 && r.Ok? ==> r.value.item == GroupItem(groups[p[0]])
    ensures |p| > 1 && GroupOf(groups, p).Err? ==> r == Err(GroupNotFound)
    ensures |p| > 1 && GroupOf(groups, p).Ok? ==>
              (r.Ok? <==> p[|p| - 1] < Len(GroupOf(groups, p).value))
              && (r.Err? ==> r.error == OutOfBounds)
              && (r.Ok? ==> Some(r.value.item) == Child(GroupOf(groups, p).value, p[|p| - 1]))
  {
    if p[0] >= |groups| then Err(GroupNotFound)
    else if |p| == 1 then Ok(Found(GroupItem(groups[p[0]]), 0))
    else
      match Walk(groups[p[0]], p[1..|p| - 1])
      case None => Err(GroupNotFound)
      case Some(g) =>
        match Child(g, p[|p| - 1])
        case None => Err(OutOfBounds)
        case Some(it) => Ok(Found(it, |p| - 1))
  }

  /** Reference resolution, one level at a time: the empty rest selects the
      group itself, a single index selects one of its children, and a
      longer rest descends into the subgroup it starts with. */
  function Resolve(g: Group, q: seq<nat>): Option<Item>
    decreases |q|
  {
    if q == [] then Some(GroupItem(g))
    else if |q| == 1 then Child(g, q[0])
    else if q[0] < |g.subgroups| then Resolve(g.subgroups[q[0]], q[1..])
    else None
  }

  lemma {:induction false} ResolveIsWalkThenChild(g: Group, q: seq<nat>)
    requires |q| > 0
    ensures Resolve(g, q) == match Walk(g, q[..|q| - 1]) case None => None case Some(h) => Child(h, q[|q| - 1])
    decreases |q|
  {
    if |q| > 1 {
      assert q[..|q| - 1][0] == q[0];
      if q[0] < |g.subgroups| {
        assert q[..|q| - 1][1..] == q[1..][..|q| - 2];
        ResolveIsWalkThenChild(g.subgroups[q[0]], q[1..]);
      }
    }
  }

  /** `find_item` agrees with the level-by-level resolution: it succeeds
      exactly when the rest of the path resolves below the chosen root,
      and it yields that item. */
  lemma ItemOfResolves(groups: seq<Group>, p: seq<nat>)
    requires |p| > 0
    ensures ItemOf(groups, p).Ok? <==> p[0] < |groups| && Resolve(groups[p[0]], p[1..]).Some?
    ensures ItemOf(groups, p).Ok? ==> ItemOf(groups, p).value.item == Resolve(groups[p[0]], p[1..]).value
  {
    if |p| > 1 && p[0] < |groups| {
      ResolveIsWalkThenChild(groups[p[0]], p[1..]);
      assert p[1..][..|p| - 2] == p[1..|p| - 1];
    }
  }

  /** `find_group` ignores the last index. */
  lemma GroupOfIgnoresLast(groups: seq<Group>, p: seq<nat>, k: nat)
    requires |p| > 1
    ensures GroupOf(groups, p[..|p| - 1] + [k]) == GroupOf(groups, p)
  {
    var p' := p[..|p| - 1] + [k];
    assert p'[1..|p'| - 1] == p[1..|p| - 1];
  }

  /** Descending below a selected group: the extended path's group is the selected group. */
  lemma GroupOfPush(groups: seq<Group>, p: seq<nat>, k: nat)
    requires |p| > 0 && ItemOf(groups, p).Ok? && ItemOf(groups, p).value.item.GroupItem?
    ensures GroupOf(groups, p + [k]) == Ok(ItemOf(groups, p).value.item.group)
  {
    var p' := p + [k];
    if |p| == 1 {
      assert p'[1..|p'| - 1] == [];
    } else {
      assert p'[1..|p'| - 1] == p[1..|p| - 1] + [p[|p| - 1]];
      WalkSnoc(groups[p[0]], p[1..|p| - 1], p[|p| - 1]);
    }
  }

  /** Climbing one level: the shortened path selects the group the longer path's last index was read against. */
  lemma ItemOfPop(groups: seq<Group>, p: seq<nat>)
    requires |p| > 1 && GroupOf(groups, p).Ok?
    ensures ItemOf(groups, p[..|p| - 1]) == Ok(Found(GroupItem(GroupOf(groups, p).value), |p| - 2))
  {
    var p' := p[..|p| - 1];
    if |p'| > 1 {
      assert p[1..|p| - 1] == p'[1..|p'| - 1] + [p'[|p'| - 1]];
      WalkSnoc(groups[p[0]], p'[1..|p'| - 1], p'[|p'| - 1]);
    }
  }

  // ---------------------------------------------------------------------
  // Mutable references: a group is named by its route from the forest.

  /** The group at a route: the first index picks a root, the rest follow `subgroups`. */
  function GroupAt(groups: seq<Group>, route: seq<nat>): Option<Group>
    requires |route| > 0
  {
    if route[0] < |groups| then Walk(groups[route[0]], route[1..]) else None
  }

  /** The route of the group `find_group_mut` hands out for a path. */
  function GroupRoute(p: seq<nat>): (r: seq<nat>)
    requires |p| > 0
    ensures 0 < |r| <= |p| && r == p[..|r|]
  {
    if |p| == 1 then p else p[..|p| - 1]
  }

  /** `find_group` and the route of `find_group_mut` name the same group. */
  lemma GroupRouteFinds(groups: seq<Group>, p: seq<nat>)
    requires |p| > 0
    ensures GroupOf(groups, p).Ok? <==> GroupAt(groups, GroupRoute(p)).Some?
    ensures GroupOf(groups, p).Ok? ==> GroupAt(groups, GroupRoute(p)) == Some(GroupOf(groups, p).value)
  {
    var r := GroupRoute(p);
    if |p| > 1 {
      assert r[1..] == p[1..|p| - 1];
    } else {
      assert r[1..] == [];
    }
  }

  /** Writes `h` in place of the group at `route` below `g`; an invalid route changes nothing. */
  function ReplaceIn(g: Group, route: seq<nat>, h: Group): (r: Group)
    ensures |r.subgroups| == |g.subgroups| || route == []
    decreases |route|
  {
    if route == [] then h
    else if route[0] < |g.subgroups| then
      g.(subgroups := g.subgroups[route[0] := ReplaceIn(g.subgroups[route[0]], route[1..], h)])
    else g
  }

  /** Writes `h` in place of the group at `route` in the forest. */
  function ReplaceAt(groups: seq<Group>, route: seq<nat>, h: Group): (r: seq<Group>)
    requires |route| > 0
    ensures |r| == |groups|
    ensures forall i :: 0 <= i < |groups| && i != route[0] ==> r[i] == groups[i]
  {
    if route[0] < |groups| then groups[route[0] := ReplaceIn(groups[route[0]], route[1..], h)] else groups
  }

  /** Reading back a written group yields it. */
  lemma {:induction false} WalkReplaceIn(g: Group, route: seq<nat>, h: Group)
    requires Walk(g, route).Some?
    ensures Walk(ReplaceIn(g, route, h), route) == Some(h)
    decreases |route|
  {
    if route != [] {
      WalkReplaceIn(g.subgroups[route[0]], route[1..], h);
    }
  }

  /** Writing back the group that is already there changes nothing. */
  lemma {:induction false} ReplaceInSame(g: Group, route: seq<nat>)
    requires Walk(g, route).Some?
    ensures ReplaceIn(g, route, Walk(g, route).value) == g
    decreases |route|
  {
    if route != [] {
      ReplaceInSame(g.subgroups[route[0]], route[1..]);
    }
  }

  /** Writing at a route and reading it back through the forest yields the written group;
      writing back what is there leaves the forest as it was. */
  lemma ReplaceAtRoundTrip(groups: seq<Group>, route: seq<nat>, h: Group)
    requires |route| > 0 && GroupAt(groups, route).Some?
    ensures GroupAt(ReplaceAt(groups, route, h), route) == Some(h)
    ensures ReplaceAt(groups, route, GroupAt(groups, route).value) == groups
  {
    WalkReplaceIn(groups[route[0]], route[1..], h);
    ReplaceInSame(groups[route[0]], route[1..]);
  }

  /** Writing a group and then writing the original back restores the tree. */
  lemma {:induction false} ReplaceInUndo(g: Group, route: seq<nat>, h: Group)
    requires Walk(g, route).Some?
    ensures ReplaceIn(ReplaceIn(g, route, h), route, Walk(g, route).value) == g
    decreases |route|
  {
    if route != [] {
      ReplaceInUndo(g.subgroups[route[0]], route[1..], h);
    }
  }

  /** Only the group at the route changes: writing the original back restores the forest. */
  lemma ReplaceAtUndo(groups: seq<Group>, route: seq<nat>, h: Group)
    requires |route| > 0 && GroupAt(groups, route).Some?
    ensures ReplaceAt(ReplaceAt(groups, route, h), route, GroupAt(groups, route).value) == groups
  {
    ReplaceInUndo(groups[route[0]], route[1..], h);
  }

  /** Replacing a group keeps every route that is not below it: in
      particular the path to it and the paths of its ancestors still walk. */
  lemma {:induction false} WalkReplaceInPrefix(g: Group, route: seq<nat>, h: Group, n: nat)
    requires Walk(g, route).Some? && n <= |route|
    ensures Walk(ReplaceIn(g, route, h), route[..n]).Some?
    decreases |route|
  {
    if n > 0 {
      assert route[..n][1..] == route[1..][..n - 1];
      WalkReplaceInPrefix(g.subgroups[route[0]], route[1..], h, n - 1);
    }
  }
}
