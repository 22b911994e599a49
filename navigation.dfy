/** `PositionHierarchy`: the cursor, an index path into the forest, with
    its lookups and its clamped moves. Each move is a method on the
    cursor, specified by a function of the forest and the old path. */
module Navigation {
  import opened Tree
  import opened Paths
  import opened Position
  import opened Rendering
  import opened Config

  /** The path after a move, and what the move returned. */
  datatype Move = Move(path: seq<nat>, status: Result<()>)

  /** What `find_item_mut` hands out: a group by its route, or a todo by
      its group's route, the list it is in and its position there. */
  datatype Target = GroupTarget(route: seq<nat>) | TodoTarget(route: seq<nat>, done: bool, index: nat)

  /** The item a target points at. */
  function TargetItem(groups: seq<Group>, t: Target): Option<Item>
  {
    if |t.route| == 0 then None
    else
      match GroupAt(groups, t.route)
      case None => None
      case Some(g) =>
        match t
        case GroupTarget(_) => Some(GroupItem(g))
        case TodoTarget(_, done, i) =>
          if done then (if i < |g.completed| then Some(TodoItem(g.completed[i])) else None)
          else (if i < |g.todos| then Some(TodoItem(g.todos[i])) else None)
  }

  /** A cursor that selects something. */
  predicate Valid(groups: seq<Group>, p: seq<nat>) {
    |p| > 0 && ItemOf(groups, p).Ok?
  }

  /** A selected group is reached by the cursor path itself used as a route. */
  lemma SelectedGroupRoute(groups: seq<Group>, p: seq<nat>)
    requires |p| > 0
    ensures (ItemOf(groups, p).Ok? && ItemOf(groups, p).value.item.GroupItem?) <==> GroupAt(groups, p).Some?
    ensures GroupAt(groups, p).Some? ==> ItemOf(groups, p).value.item == GroupItem(GroupAt(groups, p).value)
  {
    if |p| == 1 {
      assert p[1..] == [];
    } else if p[0] < |groups| {
      assert p[1..] == p[1..|p| - 1] + [p[|p| - 1]];
      WalkSnoc(groups[p[0]], p[1..|p| - 1], p[|p| - 1]);
    }
  }

  // ---------------------------------------------------------------------
  // Forests that differ at most in `open` flags.

  predicate SameForest(a: seq<Group>, b: seq<Group>) {
    |a| == |b| && forall i :: 0 <= i < |a| ==> SameContent(a[i], b[i])
  }

  lemma SameForestRefl(groups: seq<Group>)
    ensures SameForest(groups, groups)
  {
    forall i | 0 <= i < |groups| ensures SameContent(groups[i], groups[i]) {
      SameContentRefl(groups[i]);
    }
  }

  lemma {:induction false} ReplaceInSameContent(g: Group, route: seq<nat>, h: Group)
    requires Walk(g, route).Some? && SameContent(Walk(g, route).value, h)
    ensures SameContent(g, ReplaceIn(g, route, h))
    decreases |route|
  {
    if route != [] {
      var k := route[0];
      ReplaceInSameContent(g.subgroups[k], route[1..], h);
      var r := ReplaceIn(g, route, h);
      forall i | 0 <= i < |g.subgroups| ensures SameContent(g.subgroups[i], r.subgroups[i]) {
        if i != k { SameContentRefl(g.subgroups[i]); }
      }
    }
  }

  /** Replacing a group by one with the same content keeps the forest's content. */
  lemma ReplaceAtSameForest(groups: seq<Group>, route: seq<nat>, h: Group)
    requires |route| > 0 && GroupAt(groups, route).Some? && SameContent(GroupAt(groups, route).value, h)
    ensures SameForest(groups, ReplaceAt(groups, route, h))
  {
    var r := ReplaceAt(groups, route, h);
    ReplaceInSameContent(groups[route[0]], route[1..], h);
    forall i | 0 <= i < |groups| ensures SameContent(groups[i], r[i]) {
      if i != route[0] { SameContentRefl(groups[i]); }
    }
  }

  // ---------------------------------------------------------------------
  // The moves, as functions of the forest and the path.

  /** `group_up`: one sibling up, stopping at the first. */
  function GroupUpMove(p: seq<nat>): (m: Move)
    ensures p == [] ==> m == Move(p, Err(NoIndex))
    ensures p != [] ==> m.status == Ok(()) && |m.path| == |p| && m.path[..|p| - 1] == p[..|p| - 1]
    ensures p != [] ==> m.path[|p| - 1] == if p[|p| - 1] > 0 then p[|p| - 1] - 1 else 0
  {
    if p == [] then Move(p, Err(NoIndex))
    else if p[|p| - 1] > 0 then Move(p[..|p| - 1] + [p[|p| - 1] - 1], Ok(()))
    else Move(p, Ok(()))
  }

  /** Where `group_down` would compute an index below zero: an empty forest
      at root level, or an empty group above a longer path. */
  predicate GroupDownSafe(groups: seq<Group>, p: seq<nat>)
    requires |p| > 0
  {
    if |p| == 1 then |groups| > 0 else GroupOf(groups, p).Ok? ==> Len(GroupOf(groups, p).value) > 0
  }

  /** `group_down`: one sibling down, stopping at the last root or at the
      last child of the group the path is read against. */
  function GroupDownMove(groups: seq<Group>, p: seq<nat>): (m: Move)
    requires |p| > 0 && GroupDownSafe(groups, p)
    ensures |m.path| == |p| && m.path[..|p| - 1] == p[..|p| - 1]
    ensures |p| == 1 ==> m.status == Ok(()) && m.path[0] == if p[0] < |groups| - 1 then p[0] + 1 else p[0]
    ensures |p| > 1 ==> (m.status.Err? <==> GroupOf(groups, p).Err?)
    ensures |p| > 1 && m.status.Ok? ==>
              m.path[|p| - 1] == if p[|p| - 1] < Len(GroupOf(groups, p).value) - 1 then p[|p| - 1] + 1 else p[|p| - 1]
  {
    var last := p[|p| - 1];
    if |p| == 1 then
      if last < |groups| - 1 then Move([last + 1], Ok(())) else Move(p, Ok(()))
    else
      match GroupOf(groups, p)
      case Err(e) => Move(p, Err(e))
      case Ok(g) => if last < Len(g) - 1 then Move(p[..|p| - 1] + [last + 1], Ok(())) else Move(p, Ok(()))
  }

  /** `hierarchy_up`: drops the last index unless it is the only one. */
  function HierarchyUpPath(p: seq<nat>): (r: seq<nat>)
    ensures |p| > 1 ==> r == p[..|p| - 1]
    ensures |p| <= 1 ==> r == p
  {
    if |p| > 1 then p[..|p| - 1] else p
  }

  /** `hierarchy_down_no_open`: descends to the first child of a selected
      non-empty group; stays put on a todo or an empty group. */
  function HierarchyDownMove(groups: seq<Group>, p: seq<nat>): (m: Move)
    requires |p| > 0
    ensures ItemOf(groups, p).Err? ==> m == Move(p, Err(ItemOf(groups, p).error))
    ensures ItemOf(groups, p).Ok? ==> m.status == Ok(())
    ensures m.path != p ==> m.path == p + [0]
    ensures m.path == p + [0] <==>
              ItemOf(groups, p).Ok? && ItemOf(groups, p).value.item.GroupItem? && !IsEmpty(ItemOf(groups, p).value.item.group)
  {
    match ItemOf(groups, p)
    case Err(e) => Move(p, Err(e))
    case Ok(f) => if f.item.GroupItem? && !IsEmpty(f.item.group) then Move(p + [0], Ok(())) else Move(p, Ok(()))
  }

  /** The forest after `hierarchy_down`: the selected non-empty group is opened in place. */
  function OpenedForest(groups: seq<Group>, p: seq<nat>): seq<Group>
    requires |p| > 0
  {
    match GroupAt(groups, p)
    case Some(g) => if IsEmpty(g) then groups else ReplaceAt(groups, p, g.(open := true))
    case None => groups
  }

  /** A selected group that is open and has children. */
  predicate OpenGroupSelected(groups: seq<Group>, p: seq<nat>)
    requires |p| > 0
  {
    ItemOf(groups, p).Ok? && ItemOf(groups, p).value.item.GroupItem?
    && ItemOf(groups, p).value.item.group.open && !IsEmpty(ItemOf(groups, p).value.item.group)
  }

  /** `cursor_up`: at a first child, climb to the parent; otherwise step to
      the previous sibling and, if that is an open non-empty group, go to
      its last child (one level only). */
  function CursorUpMove(groups: seq<Group>, p: seq<nat>): Move
  {
    if p == [] then Move(p, Err(NoIndex))
    else if p[|p| - 1] > 0 then
      var p1 := GroupUpMove(p).path;
      match ItemOf(groups, p1)
      case Err(e) => Move(p1, Err(e))
      case Ok(f) =>
        if OpenGroupSelected(groups, p1) then Move(p1 + [Len(f.item.group) - 1], Ok(()))
        else Move(p1, Ok(()))
    else Move(HierarchyUpPath(p), Ok(()))
  }

  /** `cursor_down`: into an open non-empty group; otherwise, at root level
      first one `group_down`, then climb if at the last child, then one
      `group_down` at the resulting level. */
  function CursorDownMove(groups: seq<Group>, p: seq<nat>): Move
    requires |p| > 0
  {
    match ItemOf(groups, p)
    case Err(e) => Move(p, Err(e))
    case Ok(f) =>
      if OpenGroupSelected(groups, p) then HierarchyDownMove(groups, p)
      else
        var p1 := if |p| == 1 then GroupDownMove(groups, p).path else p;
        match GroupOf(groups, p1)
        case Err(e) => Move(p1, Err(e))
        case Ok(g) =>
          var p2 := if p1[|p1| - 1] + 1 >= Len(g) then HierarchyUpPath(p1) else p1;
          assert GroupDownSafe(groups, p2) by { CursorDownSafe(groups, p, p1, p2); }
          GroupDownMove(groups, p2)
  }

  /** The last `group_down` of `cursor_down` never counts below zero. */
  lemma CursorDownSafe(groups: seq<Group>, p: seq<nat>, p1: seq<nat>, p2: seq<nat>)
    requires Valid(groups, p)
    requires p1 == p || (|p| == 1 && GroupDownSafe(groups, p) && p1 == GroupDownMove(groups, p).path)
    requires p2 == p1 || p2 == HierarchyUpPath(p1)
    ensures |p2| > 0 && GroupDownSafe(groups, p2)
  {
    if |p2| > 1 {
      assert p1 == p;
      if p2 == p1 {
      } else {
        assert p2 == p[..|p| - 1];
        ItemOfPop(groups, p);
      }
    }
  }

  // ---------------------------------------------------------------------
  // Every move keeps a cursor that selects something selecting something.

  lemma GroupUpKeepsValid(groups: seq<Group>, p: seq<nat>)
    requires Valid(groups, p)
    ensures GroupUpMove(p).status == Ok(()) && Valid(groups, GroupUpMove(p).path)
  {
    if |p| > 1 {
      GroupOfIgnoresLast(groups, p, GroupUpMove(p).path[|p| - 1]);
      assert GroupUpMove(p).path == p[..|p| - 1] + [GroupUpMove(p).path[|p| - 1]];
    }
  }

  lemma GroupDownKeepsValid(groups: seq<Group>, p: seq<nat>)
    requires Valid(groups, p)
    ensures GroupDownSafe(groups, p)
    ensures GroupDownMove(groups, p).status == Ok(()) && Valid(groups, GroupDownMove(groups, p).path)
  {
    if |p| > 1 {
      var m := GroupDownMove(groups, p);
      GroupOfIgnoresLast(groups, p, m.path[|p| - 1]);
      assert m.path == p[..|p| - 1] + [m.path[|p| - 1]];
    }
  }

  /** `hierarchy_up` never empties the path, and climbing from a selected item selects its group. */
  lemma HierarchyUpKeepsValid(groups: seq<Group>, p: seq<nat>)
    requires Valid(groups, p)
    ensures Valid(groups, HierarchyUpPath(p))
  {
    if |p| > 1 {
      ItemOfPop(groups, p);
    }
  }

  lemma HierarchyDownKeepsValid(groups: seq<Group>, p: seq<nat>)
    requires Valid(groups, p)
    ensures HierarchyDownMove(groups, p).status == Ok(()) && Valid(groups, HierarchyDownMove(groups, p).path)
  {
    if HierarchyDownMove(groups, p).path == p + [0] {
      GroupOfPush(groups, p, 0);
    }
  }

  /** `hierarchy_down` opens the group it enters and changes nothing else:
      the forest keeps its content up to `open` flags, the entered group
      is open, and the new path selects its first child. */
  lemma HierarchyDownOpens(groups: seq<Group>, p: seq<nat>)
    requires Valid(groups, p)
    ensures var after := OpenedForest(groups, p);
      && SameForest(groups, after)
      && Valid(after, HierarchyDownMove(groups, p).path)
      && (HierarchyDownMove(groups, p).path == p + [0] ==> GroupOf(after, p + [0]).Ok? && GroupOf(after, p + [0]).value.open)
      && (HierarchyDownMove(groups, p).path == p ==> after == groups)
  {
    SelectedGroupRoute(groups, p);
    var after := OpenedForest(groups, p);
    if HierarchyDownMove(groups, p).path == p + [0] {
      var g := GroupAt(groups, p).value;
      FlipKeepsContent(g, true);
      ReplaceAtRoundTrip(groups, p, g.(open := true));
      ReplaceAtSameForest(groups, p, g.(open := true));
      SelectedGroupRoute(after, p);
      GroupOfPush(after, p, 0);
    } else {
      SameForestRefl(groups);
    }
  }

  lemma CursorUpKeepsValid(groups: seq<Group>, p: seq<nat>)
    requires Valid(groups, p)
    ensures CursorUpMove(groups, p).status == Ok(()) && Valid(groups, CursorUpMove(groups, p).path)
  {
    if p[|p| - 1] > 0 {
      var p1 := GroupUpMove(p).path;
      GroupUpKeepsValid(groups, p);
      if OpenGroupSelected(groups, p1) {
        LastChildValid(groups, p1);
      }
    } else {
      HierarchyUpKeepsValid(groups, p);
    }
  }

  /** The last child of a selected open non-empty group is a valid selection. */
  lemma LastChildValid(groups: seq<Group>, p: seq<nat>)
    requires |p| > 0 && OpenGroupSelected(groups, p)
    ensures Valid(groups, p + [Len(ItemOf(groups, p).value.item.group) - 1])
  {
    GroupOfPush(groups, p, Len(ItemOf(groups, p).value.item.group) - 1);
  }

  lemma CursorDownKeepsValid(groups: seq<Group>, p: seq<nat>)
    requires Valid(groups, p)
    ensures CursorDownMove(groups, p).status == Ok(()) && Valid(groups, CursorDownMove(groups, p).path)
  {
    if OpenGroupSelected(groups, p) {
      HierarchyDownKeepsValid(groups, p);
    } else {
      var p1 := if |p| == 1 then GroupDownMove(groups, p).path else p;
      if |p| == 1 { GroupDownKeepsValid(groups, p); }
      var g := GroupOf(groups, p1).value;
      var p2 := if p1[|p1| - 1] + 1 >= Len(g) then HierarchyUpPath(p1) else p1;
      HierarchyUpKeepsValid(groups, p1);
      GroupDownKeepsValid(groups, p2);
    }
  }

  // ---------------------------------------------------------------------
  // What the visual moves do.

  /** On an open non-empty group, `cursor_down` only descends to its first child. */
  lemma CursorDownEnters(groups: seq<Group>, p: seq<nat>)
    requires |p| > 0 && OpenGroupSelected(groups, p)
    ensures CursorDownMove(groups, p) == Move(p + [0], Ok(()))
  {
  }

  /** Below the root level, on anything but an open non-empty group that
      is not the last child, `cursor_down` only moves to the next sibling. */
  lemma CursorDownNextSibling(groups: seq<Group>, p: seq<nat>)
    requires Valid(groups, p) && |p| > 1 && !OpenGroupSelected(groups, p)
    requires p[|p| - 1] + 1 < Len(GroupOf(groups, p).value)
    ensures CursorDownMove(groups, p) == Move(p[..|p| - 1] + [p[|p| - 1] + 1], Ok(()))
  {
  }

  /** At a first child, `cursor_up` climbs one level. */
  lemma CursorUpClimbs(groups: seq<Group>, p: seq<nat>)
    requires |p| > 0 && p[|p| - 1] == 0
    ensures CursorUpMove(groups, p) == Move(HierarchyUpPath(p), Ok(()))
  {
  }

  /** Otherwise `cursor_up` steps back one sibling and, if that selects an
      open non-empty group, continues to its last child. */
  lemma CursorUpSteps(groups: seq<Group>, p: seq<nat>)
    requires Valid(groups, p) && p[|p| - 1] > 0
    ensures var p1 := p[..|p| - 1] + [p[|p| - 1] - 1];
      CursorUpMove(groups, p).path
        == if OpenGroupSelected(groups, p1) then p1 + [Len(ItemOf(groups, p1).value.item.group) - 1] else p1
  {
    GroupUpKeepsValid(groups, p);
    assert GroupUpMove(p).path == p[..|p| - 1] + [p[|p| - 1] - 1];
  }

  // ---------------------------------------------------------------------
  // The extra root-level step of `cursor_down`.

  /** As written, `cursor_down` on a root that is closed or empty takes two
      steps: the special root-level `group_down` and then the general one,
      so the root below is skipped together with all its rows. */
  lemma CursorDownSkipsRoot(groups: seq<Group>, i: nat)
    requires i + 2 < |groups| && !OpenGroupSelected(groups, [i])
    ensures CursorDownMove(groups, [i]).path == [i + 2]
    ensures VertPosOf(groups, [i + 2]).value == VertPosOf(groups, [i]).value + 1 + GroupSize(groups[i + 1])
  {
    RootRows(groups, i);
    SumSizesPrefix(groups, i + 1);
    assert [i][1..] == [] && [i + 2][1..] == [];
  }

  /** Three closed roots with the cursor on the first: one press of the
      down key lands on the third. */
  lemma CursorDownSkipsExample()
    ensures CursorDownMove([NewGroup("A", false), NewGroup("B", false), NewGroup("C", false)], [0]).path == [2]
  {
    CursorDownSkipsRoot([NewGroup("A", false), NewGroup("B", false), NewGroup("C", false)], 0);
  }

  /** A root that is closed or empty occupies one row. */
  lemma RootRows(groups: seq<Group>, i: nat)
    requires i < |groups| && !OpenGroupSelected(groups, [i])
    ensures GroupSize(groups[i]) == 1
    ensures SumSizes(groups[..i + 1]) == SumSizes(groups[..i]) + 1
  {
    SumSizesPrefix(groups, i);
  }

  /** `cursor_down` without the root-level extra step. */
  function CursorDownFixed(groups: seq<Group>, p: seq<nat>): Move
    requires |p| > 0
  {
    match ItemOf(groups, p)
    case Err(e) => Move(p, Err(e))
    case Ok(f) =>
      if OpenGroupSelected(groups, p) then HierarchyDownMove(groups, p)
      else
        match GroupOf(groups, p)
        case Err(e) => Move(p, Err(e))
        case Ok(g) =>
          var p2 := if p[|p| - 1] + 1 >= Len(g) then HierarchyUpPath(p) else p;
          assert GroupDownSafe(groups, p2) by { CursorDownSafe(groups, p, p, p2); }
          GroupDownMove(groups, p2)
  }

  /** Without the extra step, a closed or empty root moves to the next
      root, which is the next row on screen. */
  lemma CursorDownFixedNextRow(groups: seq<Group>, i: nat)
    requires i + 1 < |groups| && !OpenGroupSelected(groups, [i])
    ensures CursorDownFixed(groups, [i]).path == [i + 1]
    ensures VertPosOf(groups, [i + 1]).value == VertPosOf(groups, [i]).value + 1
  {
    RootRows(groups, i);
    assert [i][1..] == [] && [i + 1][1..] == [];
  }

  /** Below the root level the two agree, and the corrected move keeps the cursor valid. */
  lemma CursorDownFixedAgrees(groups: seq<Group>, p: seq<nat>)
    requires Valid(groups, p)
    ensures |p| > 1 ==> CursorDownFixed(groups, p) == CursorDownMove(groups, p)
    ensures CursorDownFixed(groups, p).status == Ok(()) && Valid(groups, CursorDownFixed(groups, p).path)
  {
    if OpenGroupSelected(groups, p) {
      HierarchyDownKeepsValid(groups, p);
    } else {
      var g := GroupOf(groups, p).value;
      var p2 := if p[|p| - 1] + 1 >= Len(g) then HierarchyUpPath(p) else p;
      HierarchyUpKeepsValid(groups, p);
      GroupDownKeepsValid(groups, p2);
    }
  }
}
