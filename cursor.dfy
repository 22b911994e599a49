/** The `PositionHierarchy` object: one mutable field, the index path,
    and the lookups and moves of navigation.rs as methods on it. Each
    method is proved against the function of the same move in `Navigation`. */
module Cursor {
  import opened Tree
  import opened Paths
  import opened Position
  import opened Config
  import opened Navigation

  class PositionHierarchy {
    var indexes: seq<nat>

    /** `new`: the cursor starts on the first root. */
    constructor ()
      ensures indexes == [0]
    {
      indexes := [0];
    }

    /** `last`: the last index, or `NoIndex` for an empty path. */
    function Last(): (r: Result<nat>)
      reads this
      ensures r.Ok? <==> indexes != []
      ensures r.Ok? ==> r.value == indexes[|indexes| - 1]
      ensures r.Err? ==> r.error == NoIndex
    {
      if indexes == [] then Err(NoIndex) else Ok(indexes[|indexes| - 1])
    }

    /** Assignment through `last_mut`: only the last index changes. */
    method SetLast(k: nat) returns (r: Result<()>)
      modifies this
      ensures old(indexes) == [] ==> r == Err(NoIndex) && indexes == old(indexes)
      ensures old(indexes) != [] ==> r == Ok(()) && indexes == old(indexes)[..|old(indexes)| - 1] + [k]
    {
      if indexes == [] {
        return Err(NoIndex);
      }
      indexes := indexes[..|indexes| - 1] + [k];
      return Ok(());
    }

    /** `find_group`: the walk from the selected root down the middle indexes. */
    method FindGroup(context: TodoConfig) returns (r: Result<Group>)
      requires |indexes| > 0
      ensures r == GroupOf(context.groups, indexes)
    {
      var groups, p := context.groups, indexes;
      if p[0] >= |groups| {
        return Err(GroupNotFound);
      }
      var group := groups[p[0]];
      if |p| == 1 {
        return Ok(group);
      }
      var i := 1;
      while i < |p| - 1
        invariant 1 <= i <= |p| - 1
        invariant Walk(groups[p[0]], p[1..i]) == Some(group)
      {
        WalkSnoc(groups[p[0]], p[1..i], p[i]);
        assert p[1..i + 1] == p[1..i] + [p[i]];
        if p[i] >= |group.subgroups| {
          WalkAppend(groups[p[0]], p[1..i + 1], p[i + 1..|p| - 1]);
          assert p[1..|p| - 1] == p[1..i + 1] + p[i + 1..|p| - 1];
          return Err(GroupNotFound);
        }
        group := group.subgroups[p[i]];
        i := i + 1;
      }
      return Ok(group);
    }

    /** `find_item`: the group the last index is read against, then the
        child at that index in subgroups, todos, completed order. */
    method FindItem(context: TodoConfig) returns (r: Result<Found>)
      requires |indexes| > 0
      ensures r == ItemOf(context.groups, indexes)
    {
      var group := FindGroup(context);
      if group.Err? {
        return Err(group.error);
      }
      var g, depth := group.value, |indexes| - 1;
      if |indexes| == 1 {
        return Ok(Found(GroupItem(g), depth));
      }
      var k := indexes[|indexes| - 1];
      if k < |g.subgroups| {
        r := Ok(Found(GroupItem(g.subgroups[k]), depth));
      } else if k < |g.subgroups| + |g.todos| {
        r := Ok(Found(TodoItem(g.todos[k - |g.subgroups|]), depth));
      } else if k < |g.subgroups| + |g.todos| + |g.completed| {
        r := Ok(Found(TodoItem(g.completed[k - |g.subgroups| - |g.todos|]), depth));
      } else {
        r := Err(OutOfBounds);
      }
    }

    /** `find_group_mut`: the route of the group `find_group` finds, with the same errors. */
    method FindGroupMut(context: TodoConfig) returns (r: Result<seq<nat>>)
      requires |indexes| > 0
      ensures r.Ok? <==> GroupOf(context.groups, indexes).Ok?
      ensures r.Err? ==> r.error == GroupOf(context.groups, indexes).error
      ensures r.Ok? ==> r.value == GroupRoute(indexes)
      ensures r.Ok? ==> GroupAt(context.groups, r.value) == Some(GroupOf(context.groups, indexes).value)
    {
      var group := FindGroup(context);
      GroupRouteFinds(context.groups, indexes);
      if group.Err? {
        return Err(group.error);
      }
      return Ok(GroupRoute(indexes));
    }

    /** `find_item_mut`: a target naming the item `find_item` finds, with the same errors. */
    method FindItemMut(context: TodoConfig) returns (r: Result<Target>)
      requires |indexes| > 0
      ensures r.Ok? <==> ItemOf(context.groups, indexes).Ok?
      ensures r.Err? ==> r.error == ItemOf(context.groups, indexes).error
      ensures r.Ok? ==> TargetItem(context.groups, r.value) == Some(ItemOf(context.groups, indexes).value.item)
      ensures r.Ok? && r.value.GroupTarget? ==> r.value.route == indexes
      ensures r.Ok? && r.value.TodoTarget? ==> r.value.route == GroupRoute(indexes)
      ensures r.Ok? && r.value.TodoTarget? ==>
                var g, k := GroupOf(context.groups, indexes).value, indexes[|indexes| - 1];
                && (r.value.done <==> |g.subgroups| + |g.todos| <= k)
                && k == |g.subgroups| + (if r.value.done then |g.todos| else 0) + r.value.index
    {
      var item := FindItem(context);
      if item.Err? {
        return Err(item.error);
      }
      SelectedGroupRoute(context.groups, indexes);
      if item.value.item.GroupItem? {
        return Ok(GroupTarget(indexes));
      }
      var g := FindGroupMut(context);
      var group := GroupAt(context.groups, g.value).value;
      var k := indexes[|indexes| - 1];
      if k < |group.subgroups| + |group.todos| {
        r := Ok(TodoTarget(g.value, false, k - |group.subgroups|));
      } else {
        r := Ok(TodoTarget(g.value, true, k - |group.subgroups| - |group.todos|));
      }
    }

    /** `group_up`. */
    method GroupUp() returns (r: Result<()>)
      modifies this
      ensures Move(indexes, r) == GroupUpMove(old(indexes))
    {
      var last := Last();
      if last.Err? {
        return Err(NoIndex);
      }
      if last.value > 0 {
        r := SetLast(last.value - 1);
      }
      return Ok(());
    }

    /** `group_down`. */
    method GroupDown(context: TodoConfig) returns (r: Result<()>)
      requires |indexes| > 0 && GroupDownSafe(context.groups, indexes)
      modifies this
      ensures Move(indexes, r) == GroupDownMove(context.groups, old(indexes))
    {
      var last := indexes[|indexes| - 1];
      if |indexes| == 1 {
        if last < |context.groups| - 1 {
          r := SetLast(last + 1);
        }
        return Ok(());
      }
      var group := FindGroup(context);
      if group.Err? {
        return Err(group.error);
      }
      var count := |group.value.subgroups| + |group.value.todos| + |group.value.completed|;
      if last < count - 1 {
        r := SetLast(last + 1);
      }
      return Ok(());
    }

    /** `hierarchy_up`. */
    method HierarchyUp() returns (r: Result<()>)
      modifies this
      ensures indexes == HierarchyUpPath(old(indexes)) && r == Ok(())
    {
      if |indexes| > 1 {
        indexes := indexes[..|indexes| - 1];
      }
      return Ok(());
    }

    /** `hierarchy_down`: descends into a selected non-empty group and opens it in the tree. */
    method HierarchyDown(context: TodoConfig) returns (r: Result<()>)
      requires |indexes| > 0
      modifies this, context
      ensures Move(indexes, r) == HierarchyDownMove(old(context.groups), old(indexes))
      ensures context.groups == OpenedForest(old(context.groups), old(indexes))
      ensures context.archiveGroups == old(context.archiveGroups) && context.archiveTime == old(context.archiveTime)
    {
      SelectedGroupRoute(context.groups, indexes);
      var item := FindItemMut(context);
      if item.Err? {
        return Err(item.error);
      }
      if item.value.GroupTarget? {
        var route := item.value.route;
        var g := GroupAt(context.groups, route).value;
        if !IsEmpty(g) {
          indexes := indexes + [0];
          context.groups := ReplaceAt(context.groups, route, g.(open := true));
        }
      }
      return Ok(());
    }

    /** `hierarchy_down_no_open`. */
    method HierarchyDownNoOpen(context: TodoConfig) returns (r: Result<()>)
      requires |indexes| > 0
      modifies this
      ensures Move(indexes, r) == HierarchyDownMove(context.groups, old(indexes))
    {
      var item := FindItem(context);
      if item.Err? {
        return Err(item.error);
      }
      if item.value.item.GroupItem? && !IsEmpty(item.value.item.group) {
        indexes := indexes + [0];
      }
      return Ok(());
    }

    /** `cursor_up`. */
    method CursorUp(context: TodoConfig) returns (r: Result<()>)
      modifies this
      ensures Move(indexes, r) == CursorUpMove(context.groups, old(indexes))
    {
      var last := Last();
      if last.Err? {
        return Err(NoIndex);
      }
      if last.value > 0 {
        r := GroupUp();
        var item := FindItem(context);
        if item.Err? {
          return Err(item.error);
        }
        if item.value.item.GroupItem? {
          var g := item.value.item.group;
          if g.open && !IsEmpty(g) {
            r := HierarchyDownNoOpen(context);
            r := SetLast(Len(g) - 1);
          }
        }
      } else {
        r := HierarchyUp();
      }
      return Ok(());
    }

    /** `cursor_down`. */
    method CursorDown(context: TodoConfig) returns (r: Result<()>)
      requires |indexes| > 0
      modifies this
      ensures Move(indexes, r) == CursorDownMove(context.groups, old(indexes))
    {
      var p := indexes;
      var item := FindItem(context);
      if item.Err? {
        return Err(item.error);
      }
      if item.value.item.GroupItem? {
        var g := item.value.item.group;
        if g.open && !IsEmpty(g) {
          assert OpenGroupSelected(context.groups, p);
          r := HierarchyDownNoOpen(context);
          return;
        }
      }
      assert !OpenGroupSelected(context.groups, p);
      ghost var q1 := if |p| == 1 then GroupDownMove(context.groups, p).path else p;
      if |indexes| == 1 {
        // the root level takes one extra step down first
        r := GroupDown(context);
      }
      assert indexes == q1;
      var p1 := indexes;
      var group := FindGroup(context);
      if group.Err? {
        assert CursorDownMove(context.groups, p) == Move(p1, Err(group.error));
        return Err(group.error);
      }
      if indexes[|indexes| - 1] + 1 >= Len(group.value) {
        r := HierarchyUp();
      }
      ghost var p2 := indexes;
      assert p2 == if p1[|p1| - 1] + 1 >= Len(group.value) then HierarchyUpPath(p1) else p1;
      CursorDownSafe(context.groups, p, p1, p2);
      assert CursorDownMove(context.groups, p) == GroupDownMove(context.groups, p2);
      r := GroupDown(context);
    }

    /** `vert_pos`. */
    method VertPos(context: TodoConfig) returns (r: Result<nat>)
      ensures r == VertPosOf(context.groups, indexes)
    {
      var groups, p := context.groups, indexes;
      if p == [] {
        return Err(NoIndex);
      }
      var total := 0;
      var i := 0;
      while i < p[0]
        invariant i <= p[0] && i <= |groups|
        invariant total == SumSizes(groups[..i])
      {
        if i >= |groups| {
          return Err(GroupNotFound);
        }
        SumSizesPrefix(groups, i);
        total := total + GroupSize(groups[i]);
        i := i + 1;
      }
      if p[0] >= |groups| {
        return Err(GroupNotFound);
      }
      var current := groups[p[0]];
      i := 1;
      while i < |p|
        invariant 1 <= i <= |p|
        invariant total + Below(current, p[i..]) == SumSizes(groups[..p[0]]) + Below(groups[p[0]], p[1..])
      {
        assert p[i..][1..] == p[i + 1..];
        total := total + 1; // the header
        var k := p[i];
        if k < |current.subgroups| {
          var j := 0;
          ghost var start := total;
          while j < k
            invariant j <= k
            invariant total == start + SumSizes(current.subgroups[..j])
          {
            SumSizesPrefix(current.subgroups, j);
            total := total + GroupSize(current.subgroups[j]);
            j := j + 1;
          }
          current := current.subgroups[k];
        } else {
          total := total + SumSizes(current.subgroups);
          total := total + (k - |current.subgroups|);
        }
        i := i + 1;
      }
      assert p[|p|..] == [];
      return Ok(total);
    }

    /** `vert_offset`, with the terminal height passed in. */
    method VertOffset(context: TodoConfig, height: nat) returns (r: Result<nat>)
      ensures r == VertOffsetOf(context.groups, indexes, height)
    {
      var cursor := VertPos(context);
      if cursor.Err? {
        return Err(cursor.error);
      }
      QuarterBounds(cursor.value, height);
      return Ok((cursor.value / 4) * height);
    }
  }
}
