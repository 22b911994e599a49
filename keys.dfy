/** The key handlers of main.rs as they run: methods that change the
    configuration and the cursor in place, through `find_item_mut` and
    `find_group_mut`. Each is proved to leave the editor in the state its
    step function in `Handlers` describes, so every property proved there
    holds of the handler. */
module Keys {
  import opened Tree
  import opened Paths
  import opened Traversal
  import opened Rendering
  import opened Config
  import opened Navigation
  import opened Cursor
  import opened Edits
  import opened Dates
  import opened Archive
  import opened Handlers

  /** The part of the editor the handlers change. */
  function Snapshot(config: TodoConfig, h: PositionHierarchy): State
    reads config, h
  {
    State(config.groups, config.archiveGroups, h.indexes)
  }

  // ---------------------------------------------------------------------
  // The group keys: `toggle_group`, `add_group`, `edit_group`, `add_todo`.

  /** The shared body of the group keys: the `find_item` guard, then
      `edit` of the group `find_item_mut` hands out, written in place. */
  method EditSelectedGroup(config: TodoConfig, h: PositionHierarchy, edit: Group -> Group) returns (o: Outcome)
    requires |h.indexes| > 0
    modifies config
    ensures After(Snapshot(config, h), o) == GroupKey(old(Snapshot(config, h)), edit)
    ensures config.archiveTime == old(config.archiveTime)
  {
    var item := h.FindItem(config);
    if item.Err? {
      return Stopped(item.error);
    }
    if !item.value.item.GroupItem? {
      return Continue;
    }
    var target := h.FindItemMut(config);
    var g := GroupAt(config.groups, target.value.route).value;
    config.groups := ReplaceAt(config.groups, target.value.route, edit(g));
    return Continue;
  }

  /** `toggle_group`. */
  method ToggleGroupKey(config: TodoConfig, h: PositionHierarchy) returns (o: Outcome)
    requires |h.indexes| > 0
    modifies config
    ensures After(Snapshot(config, h), o) == ToggleGroupStep(old(Snapshot(config, h)))
    ensures config.archiveTime == old(config.archiveTime)
  {
    o := EditSelectedGroup(config, h, ToggleOpen);
  }

  /** `add_group`, with the prompted name. */
  method AddGroupKey(config: TodoConfig, h: PositionHierarchy, name: string) returns (o: Outcome)
    requires |h.indexes| > 0
    modifies config
    ensures After(Snapshot(config, h), o) == AddGroupStep(old(Snapshot(config, h)), name)
    ensures config.archiveTime == old(config.archiveTime)
  {
    o := EditSelectedGroup(config, h, WithSubgroup(name));
  }

  /** `edit_group`, with the prompt's answer. */
  method EditGroupKey(config: TodoConfig, h: PositionHierarchy, answer: string) returns (o: Outcome)
    requires |h.indexes| > 0
    modifies config
    ensures After(Snapshot(config, h), o) == EditGroupStep(old(Snapshot(config, h)), answer)
    ensures config.archiveTime == old(config.archiveTime)
  {
    o := EditSelectedGroup(config, h, Renamed(answer));
  }

  /** `add_todo`, with the prompted name, the date dialogue's answer and
      the clock reading (None when the local time cannot be read). */
  method AddTodoKey(config: TodoConfig, h: PositionHierarchy, name: string, due: DateAnswer, now: Option<int>)
    returns (o: Outcome)
    requires |h.indexes| > 0
    modifies config
    ensures After(Snapshot(config, h), o) == AddTodoStep(old(Snapshot(config, h)), name, due, now)
    ensures config.archiveTime == old(config.archiveTime)
  {
    var item := h.FindItem(config);
    if item.Err? {
      return Stopped(item.error);
    }
    if !item.value.item.GroupItem? {
      return Continue;
    }
    if now.None? {
      return NoClock;
    }
    o := EditSelectedGroup(config, h, WithTodo(NewTodo(name, PromptDate(due), now.value)));
  }

  // ---------------------------------------------------------------------
  // The edits the todo and hide keys make to the group they hold through
  // `find_group_mut` or `find_item_mut`, step by step as the source makes them.

  /** `toggle_todo` on the held group. */
  method ToggleHeld(g: Group, last: nat, now: Option<int>) returns (r: Group)
    requires |g.subgroups| <= last
    ensures r == ToggleIn(g, last, now)
  {
    var sg := |g.subgroups|;
    r := g;
    if last < sg + |r.todos| {
      var t := r.todos[last - sg];
      r := r.(todos := Remove(r.todos, last - sg));
      r := r.(completed := r.completed + [t.(doneTime := now)]);
    } else if last < sg + |r.todos| + |r.completed| {
      var t := r.completed[last - sg - |r.todos|];
      r := r.(completed := Remove(r.completed, last - sg - |r.todos|));
      r := r.(todos := r.todos + [t.(doneTime := None)]);
    }
  }

  /** `archive_todo` on the held group. */
  method ArchiveHeld(g: Group, last: nat) returns (r: Group)
    requires |g.subgroups| <= last < Len(g)
    ensures r == ArchiveIn(g, last)
  {
    var sg := |g.subgroups|;
    var t;
    r := g;
    if last < sg + |r.todos| {
      t := r.todos[last - sg];
      r := r.(todos := Remove(r.todos, last - sg));
    } else {
      t := r.completed[last - sg - |r.todos|];
      r := r.(completed := Remove(r.completed, last - sg - |r.todos|));
    }
    r := r.(todoArchive := r.todoArchive + [t]);
  }

  /** `edit_todo` on the todo `find_item_mut` hands out: the `index`-th of
      `completed` or of `todos`. */
  method EditHeld(g: Group, done: bool, index: nat, nameAnswer: string, dueAnswer: DateAnswer) returns (r: Group)
    requires index < (if done then |g.completed| else |g.todos|)
    ensures var k := |g.subgroups| + (if done then |g.todos| else 0) + index;
            k < Len(g) && r == SetTodoIn(g, k, EditedTodo(TodoAt(g, k), nameAnswer, dueAnswer))
  {
    var t := if done then g.completed[index] else g.todos[index];
    if nameAnswer != "" {
      t := t.(name := nameAnswer);
    }
    if t.due.Some? {
      var answer := PromptDateInPlace(t.due.value, dueAnswer);
      t := t.(due := Some(if answer.Some? then answer.value else t.due.value));
    } else {
      t := t.(due := PromptDate(dueAnswer));
    }
    r := g;
    if done {
      r := r.(completed := r.completed[index := t]);
    } else {
      r := r.(todos := r.todos[index := t]);
    }
  }

  /** `hide_group` below the roots, on the held group. */
  method HideHeld(g: Group, last: nat) returns (r: Group)
    requires last < |g.subgroups|
    ensures r == HideIn(g, last)
  {
    var t := g.subgroups[last];
    r := g.(subgroups := Remove(g.subgroups, last));
    r := r.(subgroupArchive := r.subgroupArchive + [t]);
  }

  /** What the toggle key writes: the toggled holder, with the cursor kept. */
  lemma ToggleTodoWrites(s: State, now: Option<int>)
    requires |s.path| > 0 && OnTodo(s)
    ensures OnTodo(s) && |s.path| > 1 && GroupOf(s.groups, s.path).Ok? && |Holder(s).subgroups| <= LastIndex(s)
    ensures ToggleTodoStep(s, now)
         == After(State(ReplaceAt(s.groups, GroupRoute(s.path), ToggleIn(Holder(s), LastIndex(s), now)), s.archive, s.path), Continue)
  {
    OnTodoFacts(s);
    assert s.path[..|s.path| - 1] + [LastIndex(s)] == s.path;
  }

  /** What the edit key writes: the holder with the edited todo, with the cursor kept. */
  lemma EditTodoWrites(s: State, nameAnswer: string, dueAnswer: DateAnswer)
    requires |s.path| > 0 && OnTodo(s)
    ensures |s.path| > 1 && GroupOf(s.groups, s.path).Ok? && |Holder(s).subgroups| <= LastIndex(s) < Len(Holder(s))
    ensures EditTodoStep(s, nameAnswer, dueAnswer)
         == After(State(ReplaceAt(s.groups, GroupRoute(s.path), SetTodoIn(Holder(s), LastIndex(s), EditedTodo(TodoAt(Holder(s), LastIndex(s)), nameAnswer, dueAnswer))), s.archive, s.path), Continue)
  {
    OnTodoFacts(s);
    assert s.path[..|s.path| - 1] + [LastIndex(s)] == s.path;
  }


  /** The cursor repair of `archive_todo` and `hide_group` after a child
      was taken out of the group the last index is read against. */
  method ClampCursor(h: PositionHierarchy, newLen: nat)
    requires |h.indexes| > 1 && h.indexes[|h.indexes| - 1] <= newLen
    modifies h
    ensures h.indexes == ClampAfterRemoval(old(h.indexes), newLen)
  {
    var last := h.indexes[|h.indexes| - 1];
    if last >= newLen {
      if last > 0 {
        var moved := h.SetLast(last - 1);
      } else {
        var moved := h.HierarchyUp();
      }
    }
  }


  // ---------------------------------------------------------------------
  // The todo keys.

  /** `toggle_todo`: through `find_group_mut`, the selected todo is moved
      between `todos` and `completed`. */
  method ToggleTodoKey(config: TodoConfig, h: PositionHierarchy, now: Option<int>) returns (o: Outcome)
    requires |h.indexes| > 0
    modifies config
    ensures After(Snapshot(config, h), o) == ToggleTodoStep(old(Snapshot(config, h)), now)
    ensures config.archiveTime == old(config.archiveTime)
  {
    ghost var s := Snapshot(config, h);
    var item := h.FindItem(config);
    if item.Err? {
      return Stopped(item.error);
    }
    if !item.value.item.TodoItem? {
      return Continue;
    }
    OnTodoFacts(s);
    var route := h.FindGroupMut(config);
    var g := GroupAt(config.groups, route.value).value;
    var last := h.Last().value;
    assert route.value == GroupRoute(s.path) && g == Holder(s) && last == LastIndex(s);
    g := ToggleHeld(g, last, now);
    config.groups := ReplaceAt(config.groups, route.value, g);
    ToggleTodoWrites(s, now);
    return Continue;
  }

  /** `activate_item`, reached from a left mouse click once the cursor has
      been walked down to the clicked row: a group is opened or closed, a
      todo is toggled. */
  method ActivateItem(config: TodoConfig, h: PositionHierarchy, now: Option<int>) returns (o: Outcome)
    requires |h.indexes| > 0
    modifies config
    ensures After(Snapshot(config, h), o) == ActivateStep(old(Snapshot(config, h)), now)
    ensures config.archiveTime == old(config.archiveTime)
  {
    var item := h.FindItem(config);
    if item.Err? {
      return Stopped(item.error);
    }
    if item.value.item.GroupItem? {
      o := ToggleGroupKey(config, h);
    } else {
      o := ToggleTodoKey(config, h, now);
    }
  }

  /** `archive_todo`: the selected todo goes to its group's archive and
      the cursor is pulled back into the group, or up to it. */
  method ArchiveTodoKey(config: TodoConfig, h: PositionHierarchy) returns (o: Outcome)
    requires |h.indexes| > 0
    modifies config, h
    ensures After(Snapshot(config, h), o) == ArchiveTodoStep(old(Snapshot(config, h)))
    ensures config.archiveTime == old(config.archiveTime)
  {
    ghost var s := Snapshot(config, h);
    var item := h.FindItem(config);
    if item.Err? {
      return Stopped(item.error);
    }
    if !item.value.item.TodoItem? {
      return Continue;
    }
    ArchiveTodoSteps(s);
    ArchiveSelected(config, h);
    return Continue;
  }

  /** The body of `archive_todo` once its guard has found a todo. */
  method ArchiveSelected(config: TodoConfig, h: PositionHierarchy)
    requires |h.indexes| > 0 && OnTodo(Snapshot(config, h))
    modifies config, h
    ensures Snapshot(config, h) == ArchiveTodoStep(old(Snapshot(config, h))).state
    ensures config.archiveTime == old(config.archiveTime)
  {
    ghost var s := Snapshot(config, h);
    ArchiveTodoSteps(s);
    var route := h.FindGroupMut(config);
    var g := GroupAt(config.groups, route.value).value;
    var last := h.Last().value;
    assert route.value == GroupRoute(s.path) && g == Holder(s) && last == LastIndex(s);
    g := ArchiveHeld(g, last);
    assert last <= Len(g);
    config.groups := ReplaceAt(config.groups, route.value, g);
    assert h.indexes == s.path;
    assert |h.indexes| > 1 && h.indexes[|h.indexes| - 1] <= Len(g);
    ClampCursor(h, Len(g));
  }

  /** `edit_todo`: through `find_item_mut`, the selected todo is renamed
      (an empty answer keeps the name) and its due date set by the date
      dialogue's answer, as the source writes it. */
  method EditTodoKey(config: TodoConfig, h: PositionHierarchy, nameAnswer: string, dueAnswer: DateAnswer)
    returns (o: Outcome)
    requires |h.indexes| > 0
    modifies config
    ensures After(Snapshot(config, h), o) == EditTodoStep(old(Snapshot(config, h)), nameAnswer, dueAnswer)
    ensures config.archiveTime == old(config.archiveTime)
  {
    ghost var s := Snapshot(config, h);
    var item := h.FindItem(config);
    if item.Err? {
      return Stopped(item.error);
    }
    if !item.value.item.TodoItem? {
      return Continue;
    }
    EditTodoWrites(s, nameAnswer, dueAnswer);
    EditSelected(config, h, nameAnswer, dueAnswer);
    return Continue;
  }

  /** The write of `edit_todo` once a todo is known to be selected. */
  method EditSelected(config: TodoConfig, h: PositionHierarchy, nameAnswer: string, dueAnswer: DateAnswer)
    requires |h.indexes| > 0 && OnTodo(Snapshot(config, h))
    modifies config
    ensures Snapshot(config, h) == EditTodoStep(old(Snapshot(config, h)), nameAnswer, dueAnswer).state
    ensures config.archiveTime == old(config.archiveTime)
  {
    ghost var s := Snapshot(config, h);
    EditTodoWrites(s, nameAnswer, dueAnswer);
    var target := h.FindItemMut(config);
    var route, done, index := target.value.route, target.value.done, target.value.index;
    assert route == GroupRoute(s.path);
    var g := GroupAt(config.groups, route).value;
    assert g == Holder(s) && |g.subgroups| + (if done then |g.todos| else 0) + index == LastIndex(s);
    g := EditHeld(g, done, index, nameAnswer, dueAnswer);
    config.groups := ReplaceAt(config.groups, route, g);
  }

  /** Writes the edited holder back where `route` points and moves the
      cursor to its child `k`, as the move handlers do once they have swapped. */
  method WriteBack(config: TodoConfig, h: PositionHierarchy, route: seq<nat>, g: Group, k: nat)
    requires |h.indexes| > 0 && |route| > 0
    modifies config, h
    ensures Snapshot(config, h) ==
              State(ReplaceAt(old(config.groups), route, g), old(config.archiveGroups), old(h.indexes)[..|old(h.indexes)| - 1] + [k])
    ensures config.archiveTime == old(config.archiveTime)
  {
    config.groups := ReplaceAt(config.groups, route, g);
    var moved := h.SetLast(k);
  }

  /** `move_todo_down`: an active todo with an active todo below it swaps
      with it, and the cursor follows. */
  method MoveTodoDownKey(config: TodoConfig, h: PositionHierarchy) returns (o: Outcome)
    requires |h.indexes| > 0
    modifies config, h
    ensures After(Snapshot(config, h), o) == MoveTodoDownStep(old(Snapshot(config, h)))
    ensures config.archiveTime == old(config.archiveTime)
  {
    ghost var s := Snapshot(config, h);
    var item := h.FindItem(config);
    if item.Err? {
      return Stopped(item.error);
    }
    if !item.value.item.TodoItem? {
      return Continue;
    }
    MoveTodoSteps(s);
    var route := h.FindGroupMut(config);
    var g := GroupAt(config.groups, route.value).value;
    var last := h.Last().value;
    assert route.value == GroupRoute(s.path) && g == Holder(s) && last == LastIndex(s);
    var m := MoveTodoDownIn(g, last);
    WriteBack(config, h, route.value, m.0, m.1);
    assert Snapshot(config, h) == Rewrite(s, m.0, m.1);
    return Continue;
  }

  /** `move_todo_up`. */
  method MoveTodoUpKey(config: TodoConfig, h: PositionHierarchy) returns (o: Outcome)
    requires |h.indexes| > 0
    modifies config, h
    ensures After(Snapshot(config, h), o) == MoveTodoUpStep(old(Snapshot(config, h)))
    ensures config.archiveTime == old(config.archiveTime)
  {
    ghost var s := Snapshot(config, h);
    var item := h.FindItem(config);
    if item.Err? {
      return Stopped(item.error);
    }
    if !item.value.item.TodoItem? {
      return Continue;
    }
    MoveTodoSteps(s);
    var route := h.FindGroupMut(config);
    var g := GroupAt(config.groups, route.value).value;
    var last := h.Last().value;
    assert route.value == GroupRoute(s.path) && g == Holder(s) && last == LastIndex(s);
    var m := MoveTodoUpIn(g, last);
    WriteBack(config, h, route.value, m.0, m.1);
    assert Snapshot(config, h) == Rewrite(s, m.0, m.1);
    return Continue;
  }

  // ---------------------------------------------------------------------
  // Moving and hiding groups.

  /** `move_group_down`, as written: the swap is made in the group
      `find_group_mut` hands out, which at the roots is the selected root
      itself. */
  method MoveGroupDownKey(config: TodoConfig, h: PositionHierarchy) returns (o: Outcome)
    requires |h.indexes| > 0
    modifies config, h
    ensures After(Snapshot(config, h), o) == MoveGroupDownStep(old(Snapshot(config, h)))
    ensures config.archiveTime == old(config.archiveTime)
  {
    ghost var s := Snapshot(config, h);
    var item := h.FindItem(config);
    if item.Err? {
      return Stopped(item.error);
    }
    if !item.value.item.GroupItem? {
      return Continue;
    }
    MoveGroupDownSteps(s);
    var route := h.FindGroupMut(config);
    var g := GroupAt(config.groups, route.value).value;
    var last := h.Last().value;
    assert route.value == GroupRoute(s.path) && g == Holder(s) && last == LastIndex(s);
    var m := MoveGroupDownIn(g, last);
    WriteBack(config, h, route.value, m.0, m.1);
    assert Snapshot(config, h) == Rewrite(s, m.0, m.1);
    return Continue;
  }

  /** `move_group_up`, as written; the caller keeps clear of the slice
      swap's panic. */
  method MoveGroupUpKey(config: TodoConfig, h: PositionHierarchy) returns (o: Outcome)
    requires |h.indexes| > 0 && !MoveGroupUpPanics(Snapshot(config, h))
    modifies config, h
    ensures After(Snapshot(config, h), o) == MoveGroupUpStep(old(Snapshot(config, h)))
    ensures config.archiveTime == old(config.archiveTime)
  {
    ghost var s := Snapshot(config, h);
    var item := h.FindItem(config);
    if item.Err? {
      return Stopped(item.error);
    }
    if !item.value.item.GroupItem? {
      return Continue;
    }
    MoveGroupUpSteps(s);
    var route := h.FindGroupMut(config);
    var g := GroupAt(config.groups, route.value).value;
    var last := h.Last().value;
    assert route.value == GroupRoute(s.path) && g == Holder(s) && last == LastIndex(s);
    var m := MoveGroupUpIn(g, last);
    WriteBack(config, h, route.value, m.0, m.1);
    assert Snapshot(config, h) == Rewrite(s, m.0, m.1);
    return Continue;
  }

  /** `hide_group`: a root goes to `archive_groups`, a subgroup to its
      holder's `subgroup_archive`, and the cursor is pulled back. */
  method HideGroupKey(config: TodoConfig, h: PositionHierarchy) returns (o: Outcome)
    requires |h.indexes| > 0
    modifies config, h
    ensures After(Snapshot(config, h), o) == HideGroupStep(old(Snapshot(config, h)))
    ensures config.archiveTime == old(config.archiveTime)
  {
    ghost var s := Snapshot(config, h);
    var item := h.FindItem(config);
    if item.Err? {
      return Stopped(item.error);
    }
    if !item.value.item.GroupItem? {
      return Continue;
    }
    if |h.indexes| == 1 {
      var i := h.Last().value;
      var t := config.groups[i];
      config.groups := Remove(config.groups, i);
      config.archiveGroups := config.archiveGroups + [t];
      if i >= |config.groups| && i > 0 {
        var moved := h.SetLast(i - 1);
      }
    } else {
      HideSubgroupSteps(s);
      var route := h.FindGroupMut(config);
      var g := GroupAt(config.groups, route.value).value;
      var last := h.Last().value;
      assert route.value == GroupRoute(s.path) && g == Holder(s) && last == LastIndex(s);
      g := HideHeld(g, last);
      config.groups := ReplaceAt(config.groups, route.value, g);
      ClampCursor(h, Len(g));
    }
    return Continue;
  }

  // ---------------------------------------------------------------------
  // New roots.

  /** `add_top_group`: an open root with the prompted name is appended. */
  method AddTopGroup(config: TodoConfig, name: string)
    modifies config
    ensures config.groups == old(config.groups) + [NewGroup(name, true)]
    ensures config.archiveGroups == old(config.archiveGroups) && config.archiveTime == old(config.archiveTime)
  {
    config.groups := config.groups + [NewGroup(name, true)];
  }

  /** `create_top_group`, run when there are no roots: a closed root with
      the prompted name is appended. */
  method CreateTopGroup(config: TodoConfig, name: string)
    modifies config
    ensures config.groups == old(config.groups) + [NewGroup(name, false)]
    ensures config.archiveGroups == old(config.archiveGroups) && config.archiveTime == old(config.archiveTime)
  {
    config.groups := config.groups + [NewGroup(name, false)];
  }

  // ---------------------------------------------------------------------
  // The whole-forest passes, each a `traverse_mut` over every root.

  /** The sweep's `traverse_mut` over one root. */
  method SweepRoot(g: Group, now: Option<int>, archiveTime: int) returns (r: Group)
    ensures r == MapTree(g, SweepEdit(now), archiveTime)
    ensures ActiveCount(r) == ActiveCount(g)
  {
    SweepTree(g, now, archiveTime);
    SweepKeepsCount(g, now, archiveTime);
    r := TraverseMut(g, archiveTime, EditPre(SweepEdit(now)), KeepTodo(), KeepGroup(), 0).0;
  }

  /** The clean pass's `traverse_mut` over one root. */
  method CleanRoot(g: Group) returns (r: Group)
    ensures r == MapTree(g, CleanGroup, ())
    ensures NoArchives(r) && SameShown(r, g)
  {
    CleanTree(g);
    CleanEmptiesArchives(g);
    r := TraverseMut(g, (), EditPre(CleanGroup), KeepTodo(), KeepGroup(), 0).0;
  }

  /** The archive sweep run before every event, with one clock reading. */
  method ArchiveSweep(config: TodoConfig, now: Option<int>)
    modifies config
    ensures config.groups == MapEach(old(config.groups), SweepEdit(now), config.archiveTime)
    ensures config.archiveGroups == old(config.archiveGroups) && config.archiveTime == old(config.archiveTime)
  {
    var i := 0;
    while i < |config.groups|
      invariant i <= |config.groups| == |old(config.groups)|
      invariant config.archiveGroups == old(config.archiveGroups) && config.archiveTime == old(config.archiveTime)
      invariant forall j :: 0 <= j < i ==> config.groups[j] == MapTree(old(config.groups)[j], SweepEdit(now), config.archiveTime)
      invariant forall j :: i <= j < |config.groups| ==> config.groups[j] == old(config.groups)[j]
    {
      var swept := SweepRoot(config.groups[i], now, config.archiveTime);
      config.groups := config.groups[i := swept];
      i := i + 1;
    }
  }

  /** `clean` (Alt with the clean key): every archive in the forest,
      `archive_groups` included, is emptied. */
  method Clean(config: TodoConfig)
    modifies config
    ensures config.groups == MapEach(old(config.groups), CleanGroup, ())
    ensures config.archiveGroups == [] && config.archiveTime == old(config.archiveTime)
  {
    config.archiveGroups := [];
    var i := 0;
    while i < |config.groups|
      invariant i <= |config.groups| == |old(config.groups)|
      invariant config.archiveGroups == [] && config.archiveTime == old(config.archiveTime)
      invariant forall j :: 0 <= j < i ==> config.groups[j] == MapTree(old(config.groups)[j], CleanGroup, ())
      invariant forall j :: i <= j < |config.groups| ==> config.groups[j] == old(config.groups)[j]
    {
      var cleaned := CleanRoot(config.groups[i]);
      config.groups := config.groups[i := cleaned];
      i := i + 1;
    }
  }
}
