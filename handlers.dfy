/** The structural key handlers of main.rs as steps on the editor state:
    the root groups, the hidden roots (`archive_groups`) and the cursor
    path. Every guarded key first runs `find_item` through `?`, so a
    failed lookup ends the program with that lookup's error, and a lookup
    that finds the wrong kind of item lets the key do nothing. */
module Handlers {
  import opened Tree
  import opened Paths
  import opened Rendering
  import opened Navigation
  import opened Edits
  import opened Dates
  import opened Archive

  /** How a handler ended: the event loop goes on, or main returns an
      error, either a failed cursor lookup or an unreadable local clock. */
  datatype Outcome = Continue | Stopped(error: MoveError) | NoClock

  /** What the handlers change: `config.groups`, `config.archive_groups`
      and the cursor's index path. */
  datatype State = State(groups: seq<Group>, archive: seq<Group>, path: seq<nat>)

  datatype After = After(state: State, outcome: Outcome)

  /** The cursor selects a group (the guard of the group keys). */
  predicate OnGroup(s: State)
    requires |s.path| > 0
  {
    ItemOf(s.groups, s.path).Ok? && ItemOf(s.groups, s.path).value.item.GroupItem?
  }

  /** The cursor selects a todo (the guard of the todo keys). */
  predicate OnTodo(s: State)
    requires |s.path| > 0
  {
    ItemOf(s.groups, s.path).Ok? && ItemOf(s.groups, s.path).value.item.TodoItem?
  }

  /** The group `find_group` (and `find_group_mut`) reads the last index against. */
  function Holder(s: State): Group
    requires |s.path| > 0 && GroupOf(s.groups, s.path).Ok?
  {
    GroupOf(s.groups, s.path).value
  }

  function LastIndex(s: State): nat
    requires |s.path| > 0
  {
    s.path[|s.path| - 1]
  }

  /** A selected todo sits below a root, past its group's subgroups. */
  lemma OnTodoFacts(s: State)
    requires |s.path| > 0 && OnTodo(s)
    ensures |s.path| > 1 && GroupOf(s.groups, s.path).Ok?
    ensures |Holder(s).subgroups| <= LastIndex(s) < Len(Holder(s))
    ensures ItemOf(s.groups, s.path).value.item == TodoItem(TodoAt(Holder(s), LastIndex(s)))
  {
  }

  /** A selected group below the roots is one of its holder's subgroups. */
  lemma OnGroupFacts(s: State)
    requires |s.path| > 1 && OnGroup(s)
    ensures GroupOf(s.groups, s.path).Ok? && LastIndex(s) < |Holder(s).subgroups|
    ensures ItemOf(s.groups, s.path).value.item == GroupItem(Holder(s).subgroups[LastIndex(s)])
  {
  }

  // ---------------------------------------------------------------------
  // Writing through `find_item_mut` and `find_group_mut`.

  /** Writing `h` over a selected group: the cursor then selects `h`, and
      writing the old group back restores the forest. */
  lemma GroupWritten(groups: seq<Group>, p: seq<nat>, h: Group)
    requires |p| > 0 && ItemOf(groups, p).Ok? && ItemOf(groups, p).value.item.GroupItem?
    ensures ItemOf(ReplaceAt(groups, p, h), p) == Ok(Found(GroupItem(h), |p| - 1))
    ensures ReplaceAt(ReplaceAt(groups, p, h), p, ItemOf(groups, p).value.item.group) == groups
  {
    SelectedGroupRoute(groups, p);
    ReplaceAtRoundTrip(groups, p, h);
    ReplaceAtUndo(groups, p, h);
    SelectedGroupRoute(ReplaceAt(groups, p, h), p);
  }

  /** Writing `h` over the holder of a path below the roots: every path to
      a child of the same holder now reads against `h`, the holder's own
      path selects `h`, and writing the old holder back restores the forest. */
  lemma HolderWritten(groups: seq<Group>, p: seq<nat>, h: Group, k: nat)
    requires |p| > 1 && GroupOf(groups, p).Ok?
    ensures GroupOf(ReplaceAt(groups, GroupRoute(p), h), p[..|p| - 1] + [k]) == Ok(h)
    ensures ItemOf(ReplaceAt(groups, GroupRoute(p), h), p[..|p| - 1]) == Ok(Found(GroupItem(h), |p| - 2))
    ensures ReplaceAt(ReplaceAt(groups, GroupRoute(p), h), GroupRoute(p), GroupOf(groups, p).value) == groups
  {
    var route := GroupRoute(p);
    var after := ReplaceAt(groups, route, h);
    GroupRouteFinds(groups, p);
    ReplaceAtRoundTrip(groups, route, h);
    ReplaceAtUndo(groups, route, h);
    var q := p[..|p| - 1] + [k];
    assert GroupRoute(q) == route;
    GroupRouteFinds(after, q);
    GroupRouteFinds(after, p);
    ItemOfPop(after, p);
  }

  /** The state after writing `h` over the holder and setting the last index to `k`. */
  function Rewrite(s: State, h: Group, k: nat): (r: State)
    requires |s.path| > 0
    ensures r.archive == s.archive && |r.path| == |s.path| && r.path[..|r.path| - 1] == s.path[..|s.path| - 1]
    ensures LastIndex(r) == k
  {
    State(ReplaceAt(s.groups, GroupRoute(s.path), h), s.archive, s.path[..|s.path| - 1] + [k])
  }

  /** Below the roots, a rewrite selects `h`'s child at `k`, and writing
      the old holder back restores the forest. */
  lemma RewriteSelects(s: State, h: Group, k: nat)
    requires |s.path| > 1 && GroupOf(s.groups, s.path).Ok? && k < Len(h)
    ensures Valid(Rewrite(s, h, k).groups, Rewrite(s, h, k).path)
    ensures GroupOf(Rewrite(s, h, k).groups, Rewrite(s, h, k).path) == Ok(h)
    ensures Some(ItemOf(Rewrite(s, h, k).groups, Rewrite(s, h, k).path).value.item) == Child(h, k)
    ensures ReplaceAt(Rewrite(s, h, k).groups, GroupRoute(s.path), Holder(s)) == s.groups
  {
    HolderWritten(s.groups, s.path, h, k);
  }

  /** Writing back the holder that is there, with the same last index, changes nothing. */
  lemma RewriteSame(s: State)
    requires |s.path| > 0 && GroupOf(s.groups, s.path).Ok?
    ensures Rewrite(s, Holder(s), LastIndex(s)) == s
  {
    GroupRouteFinds(s.groups, s.path);
    ReplaceAtRoundTrip(s.groups, GroupRoute(s.path), Holder(s));
    assert s.path[..|s.path| - 1] + [LastIndex(s)] == s.path;
  }

  /** Below the roots, rewriting back the old holder and last index undoes a rewrite. */
  lemma RewriteBack(s: State, h: Group, k: nat)
    requires |s.path| > 1 && GroupOf(s.groups, s.path).Ok?
    ensures Rewrite(Rewrite(s, h, k), Holder(s), LastIndex(s)) == s
  {
    var t := Rewrite(s, h, k);
    HolderWritten(s.groups, s.path, h, k);
    assert GroupRoute(t.path) == GroupRoute(s.path);
    assert t.path[..|t.path| - 1] + [LastIndex(s)] == s.path;
  }

  // ---------------------------------------------------------------------
  // Keys that edit the selected group through `find_item_mut`.

  /** A group key: the lookup's error stops main, a todo does nothing, and
      a selected group is replaced by `edit` of it in place. */
  function GroupKey(s: State, edit: Group -> Group): (r: After)
    requires |s.path| > 0
    ensures ItemOf(s.groups, s.path).Err? ==> r == After(s, Stopped(ItemOf(s.groups, s.path).error))
    ensures ItemOf(s.groups, s.path).Ok? && !OnGroup(s) ==> r == After(s, Continue)
    ensures OnGroup(s) ==> r.outcome == Continue && r.state.archive == s.archive && r.state.path == s.path
    ensures OnGroup(s) ==>
              var g := ItemOf(s.groups, s.path).value.item.group;
              && ItemOf(r.state.groups, s.path) == Ok(Found(GroupItem(edit(g)), |s.path| - 1))
              && ReplaceAt(r.state.groups, s.path, g) == s.groups
  {
    match ItemOf(s.groups, s.path)
    case Err(e) => After(s, Stopped(e))
    case Ok(f) =>
      if f.item.GroupItem? then
        GroupWritten(s.groups, s.path, edit(f.item.group));
        After(s.(groups := ReplaceAt(s.groups, s.path, edit(f.item.group))), Continue)
      else After(s, Continue)
  }

  /** The group edits of the group keys, as named values. */
  function Renamed(answer: string): Group -> Group {
    (g: Group) => g.(name := Rename(g.name, answer))
  }

  function WithSubgroup(name: string): Group -> Group {
    (g: Group) => AddSubgroupIn(g, name)
  }

  function WithTodo(t: Todo): Group -> Group {
    (g: Group) => AddTodoIn(g, t)
  }

  function Unchanged(): Group -> Group {
    (g: Group) => g
  }

  /** `toggle_group`: the selected group is opened or closed. */
  function ToggleGroupStep(s: State): After
    requires |s.path| > 0
  {
    GroupKey(s, ToggleOpen)
  }

  /** Toggling a group changes only its `open` flag, so the forest's
      content is the same, and toggling again restores the state. */
  lemma ToggleGroupTwice(s: State)
    requires |s.path| > 0 && OnGroup(s)
    ensures SameForest(s.groups, ToggleGroupStep(s).state.groups)
    ensures ToggleGroupStep(ToggleGroupStep(s).state) == After(s, Continue)
  {
    var g := ItemOf(s.groups, s.path).value.item.group;
    SelectedGroupRoute(s.groups, s.path);
    ReplaceAtSameForest(s.groups, s.path, ToggleOpen(g));
    var t := ToggleGroupStep(s).state;
    assert OnGroup(t);
    ToggleOpenTwice(g);
  }

  /** `add_group`: an open, empty subgroup is appended to the selected group. */
  function AddGroupStep(s: State, name: string): After
    requires |s.path| > 0
  {
    GroupKey(s, WithSubgroup(name))
  }

  /** The new subgroup is the selected group's last subgroup, and descending
      into it is possible at once. */
  lemma AddGroupAppends(s: State, name: string)
    requires |s.path| > 0 && OnGroup(s)
    ensures var g := ItemOf(s.groups, s.path).value.item.group;
            var r := AddGroupStep(s, name).state;
            && Valid(r.groups, r.path)
            && ItemOf(r.groups, r.path).value.item.group.subgroups == g.subgroups + [NewGroup(name, true)]
            && Valid(r.groups, r.path + [|g.subgroups|])
  {
    var g := ItemOf(s.groups, s.path).value.item.group;
    var r := AddGroupStep(s, name).state;
    GroupOfPush(r.groups, r.path, |g.subgroups|);
  }

  /** `edit_group`: the selected group takes the answer as its name unless it is empty. */
  function EditGroupStep(s: State, answer: string): After
    requires |s.path| > 0
  {
    GroupKey(s, Renamed(answer))
  }

  /** An empty answer leaves everything as it was; otherwise only the name changes. */
  lemma EditGroupRenames(s: State, answer: string)
    requires |s.path| > 0 && OnGroup(s)
    ensures answer == "" ==> EditGroupStep(s, answer) == After(s, Continue)
    ensures var g := ItemOf(s.groups, s.path).value.item.group;
            ItemOf(EditGroupStep(s, answer).state.groups, s.path).value.item.group == g.(name := Rename(g.name, answer))
  {
    var g := ItemOf(s.groups, s.path).value.item.group;
    if answer == "" {
      assert g.(name := Rename(g.name, answer)) == g;
      SelectedGroupRoute(s.groups, s.path);
      ReplaceAtRoundTrip(s.groups, s.path, g);
    }
  }

  /** `add_todo`: a not-done todo with the prompted name and due date,
      created at the clock reading `now`, is appended to the selected
      group's todos. An unreadable clock ends main before anything changes. */
  function AddTodoStep(s: State, name: string, due: DateAnswer, now: Option<int>): After
    requires |s.path| > 0
  {
    match now
    case None => if OnGroup(s) then After(s, NoClock) else GroupKey(s, Unchanged())
    case Some(t) => GroupKey(s, WithTodo(NewTodo(name, PromptDate(due), t)))
  }

  /** The new todo is the selected group's last active todo and adds one
      to its count of not-done todos; without a clock nothing changes. */
  lemma AddTodoAppends(s: State, name: string, due: DateAnswer, now: Option<int>)
    requires |s.path| > 0 && OnGroup(s)
    ensures now.None? ==> AddTodoStep(s, name, due, now) == After(s, NoClock)
    ensures now.Some? ==>
              var g := ItemOf(s.groups, s.path).value.item.group;
              var r := AddTodoStep(s, name, due, now).state;
              var h := ItemOf(r.groups, r.path).value.item.group;
              && Valid(r.groups, r.path)
              && h.todos == g.todos + [Todo(name, None, PromptDate(due), now.value)]
              && ActiveCount(h) == ActiveCount(g) + 1
  {
  }

  // ---------------------------------------------------------------------
  // Keys that edit the selected todo's group through `find_group_mut`.

  /** `toggle_todo` and the todo branch of `activate_item`: the selected
      todo moves to the end of the other list, stamped with `now` when it
      becomes done and unstamped when it becomes active again. */
  function ToggleTodoStep(s: State, now: Option<int>): After
    requires |s.path| > 0
  {
    match ItemOf(s.groups, s.path)
    case Err(e) => After(s, Stopped(e))
    case Ok(f) =>
      if f.item.TodoItem? then
        OnTodoFacts(s);
        After(Rewrite(s, ToggleIn(Holder(s), LastIndex(s), now), LastIndex(s)), Continue)
      else After(s, Continue)
  }

  /** After a toggle the cursor still selects something at the same place,
      and the toggled todo is the last entry of the list it moved to. */
  lemma ToggleTodoMoves(s: State, now: Option<int>)
    requires |s.path| > 0 && OnTodo(s)
    ensures var r := ToggleTodoStep(s, now);
            && r.outcome == Continue && r.state.path == s.path && Valid(r.state.groups, s.path)
    ensures var g, k, r := Holder(s), LastIndex(s), ToggleTodoStep(s, now).state;
            var h := GroupOf(r.groups, r.path).value;
            && (k < |g.subgroups| + |g.todos| ==> h.completed == g.completed + [TodoAt(g, k).(doneTime := now)])
            && (k >= |g.subgroups| + |g.todos| ==> h.todos == g.todos + [TodoAt(g, k).(doneTime := None)])
  {
    OnTodoFacts(s);
    var g, k := Holder(s), LastIndex(s);
    RewriteSelects(s, ToggleIn(g, k, now), k);
    assert s.path[..|s.path| - 1] + [k] == s.path;
  }

  /** `activate_item` (a left click): toggles the selected group open or
      closed, or the selected todo done or not done. */
  function ActivateStep(s: State, now: Option<int>): (r: After)
    requires |s.path| > 0
    ensures OnGroup(s) ==> r == ToggleGroupStep(s)
    ensures !OnGroup(s) ==> r == ToggleTodoStep(s, now)
  {
    match ItemOf(s.groups, s.path)
    case Err(e) => After(s, Stopped(e))
    case Ok(f) => if f.item.GroupItem? then ToggleGroupStep(s) else ToggleTodoStep(s, now)
  }

  /** `archive_todo`: the selected todo is moved to its group's
      `todo_archive`, and the cursor is clamped back into the group, or
      climbs to it when it has no children left. */
  function ArchiveTodoStep(s: State): After
    requires |s.path| > 0
  {
    match ItemOf(s.groups, s.path)
    case Err(e) => After(s, Stopped(e))
    case Ok(f) =>
      if f.item.TodoItem? then
        OnTodoFacts(s);
        var h := ArchiveIn(Holder(s), LastIndex(s));
        After(State(ReplaceAt(s.groups, GroupRoute(s.path), h), s.archive, ClampAfterRemoval(s.path, Len(h))), Continue)
      else After(s, Continue)
  }

  /** What `archive_todo` writes: the holder without the todo, and the clamped cursor. */
  lemma ArchiveTodoSteps(s: State)
    requires |s.path| > 0 && OnTodo(s)
    ensures |s.path| > 1 && GroupOf(s.groups, s.path).Ok? && |Holder(s).subgroups| <= LastIndex(s) < Len(Holder(s))
    ensures LastIndex(s) <= Len(ArchiveIn(Holder(s), LastIndex(s)))
    ensures var g := ArchiveIn(Holder(s), LastIndex(s));
            ArchiveTodoStep(s) == After(State(ReplaceAt(s.groups, GroupRoute(s.path), g), s.archive, ClampAfterRemoval(s.path, Len(g))), Continue)
  {
    OnTodoFacts(s);
  }

  /** What `hide_group` writes below the roots. */
  lemma HideSubgroupSteps(s: State)
    requires |s.path| > 1 && OnGroup(s)
    ensures GroupOf(s.groups, s.path).Ok? && LastIndex(s) < |Holder(s).subgroups|
    ensures LastIndex(s) <= Len(HideIn(Holder(s), LastIndex(s)))
    ensures var g := HideIn(Holder(s), LastIndex(s));
            HideGroupStep(s) == After(State(ReplaceAt(s.groups, GroupRoute(s.path), g), s.archive, ClampAfterRemoval(s.path, Len(g))), Continue)
  {
    OnGroupFacts(s);
  }

  /** The archived todo is the last entry of its group's archive, nothing
      else in the forest changes, and the cursor selects the item that
      followed it, or the one before it, or the emptied group. */
  lemma ArchiveTodoKeepsCursor(s: State)
    requires |s.path| > 0 && OnTodo(s)
    ensures var r := ArchiveTodoStep(s);
            && r.outcome == Continue && r.state.archive == s.archive
            && Valid(r.state.groups, r.state.path)
    ensures var g, k, r := Holder(s), LastIndex(s), ArchiveTodoStep(s).state;
            var route := GroupRoute(s.path);
            && GroupAt(r.groups, route).Some?
            && GroupAt(r.groups, route).value.todoArchive == g.todoArchive + [TodoAt(g, k)]
            && ReplaceAt(r.groups, route, g) == s.groups
    ensures var g, k, r := Holder(s), LastIndex(s), ArchiveTodoStep(s).state;
            var item := ItemOf(r.groups, r.path).value.item;
            && (k + 1 < Len(g) ==> r.path == s.path && Some(item) == Child(g, k + 1))
            && (k + 1 == Len(g) && k > 0 ==> Some(item) == Child(g, k - 1))
            && (Len(g) == 1 ==> r.path == s.path[..|s.path| - 1])
  {
    OnTodoFacts(s);
    var g, k := Holder(s), LastIndex(s);
    var h := ArchiveIn(g, k);
    var route := GroupRoute(s.path);
    var q := ClampAfterRemoval(s.path, Len(h));
    var r := State(ReplaceAt(s.groups, route, h), s.archive, q);
    assert ArchiveTodoStep(s) == After(r, Continue) by {
      ArchiveTodoSteps(s);
    }
    assert GroupAt(r.groups, route) == Some(h) && ReplaceAt(r.groups, route, g) == s.groups by {
      GroupRouteFinds(s.groups, s.path);
      ReplaceAtRoundTrip(s.groups, route, h);
      ReplaceAtUndo(s.groups, route, h);
    }
    if |q| == |s.path| {
      var j := q[|q| - 1];
      assert q == s.path[..|s.path| - 1] + [j];
      HolderWritten(s.groups, s.path, h, j);
      assert ItemOf(r.groups, q) == Ok(Found(Child(h, j).value, |q| - 1));
    } else {
      HolderWritten(s.groups, s.path, h, 0);
    }
  }

  /** `edit_todo`: the selected todo is renamed by the rename rule and its
      due date re-prompted, in place. */
  function EditTodoStep(s: State, nameAnswer: string, dueAnswer: DateAnswer): After
    requires |s.path| > 0
  {
    match ItemOf(s.groups, s.path)
    case Err(e) => After(s, Stopped(e))
    case Ok(f) =>
      if f.item.TodoItem? then
        OnTodoFacts(s);
        var g, k := Holder(s), LastIndex(s);
        After(Rewrite(s, SetTodoIn(g, k, EditedTodo(TodoAt(g, k), nameAnswer, dueAnswer)), k), Continue)
      else After(s, Continue)
  }

  /** The cursor then selects the edited todo; an empty name and a "keep"
      answer leave everything as it was. */
  lemma EditTodoSelects(s: State, nameAnswer: string, dueAnswer: DateAnswer)
    requires |s.path| > 0 && OnTodo(s)
    ensures var r := EditTodoStep(s, nameAnswer, dueAnswer);
            var t := ItemOf(s.groups, s.path).value.item.todo;
            && r.outcome == Continue && r.state.path == s.path && Valid(r.state.groups, s.path)
            && ItemOf(r.state.groups, s.path).value.item == TodoItem(EditedTodo(t, nameAnswer, dueAnswer))
    ensures nameAnswer == "" && dueAnswer.Keep? ==> EditTodoStep(s, nameAnswer, dueAnswer) == After(s, Continue)
  {
    OnTodoFacts(s);
    var g, k := Holder(s), LastIndex(s);
    var t := TodoAt(g, k);
    RewriteSelects(s, SetTodoIn(g, k, EditedTodo(t, nameAnswer, dueAnswer)), k);
    assert s.path[..|s.path| - 1] + [k] == s.path;
    if nameAnswer == "" && dueAnswer.Keep? {
      SetTodoSame(g, k);
      GroupRouteFinds(s.groups, s.path);
      ReplaceAtRoundTrip(s.groups, GroupRoute(s.path), g);
    }
  }

  /** `move_todo_down`. */
  function MoveTodoDownStep(s: State): After
    requires |s.path| > 0
  {
    match ItemOf(s.groups, s.path)
    case Err(e) => After(s, Stopped(e))
    case Ok(f) =>
      if f.item.TodoItem? then
        OnTodoFacts(s);
        var m := MoveTodoDownIn(Holder(s), LastIndex(s));
        After(Rewrite(s, m.0, m.1), Continue)
      else After(s, Continue)
  }

  /** `move_todo_up`. */
  function MoveTodoUpStep(s: State): After
    requires |s.path| > 0
  {
    match ItemOf(s.groups, s.path)
    case Err(e) => After(s, Stopped(e))
    case Ok(f) =>
      if f.item.TodoItem? then
        OnTodoFacts(s);
        var m := MoveTodoUpIn(Holder(s), LastIndex(s));
        After(Rewrite(s, m.0, m.1), Continue)
      else After(s, Continue)
  }

  /** Both todo moves write the moved holder and the new last index. */
  lemma MoveTodoSteps(s: State)
    requires |s.path| > 0 && OnTodo(s)
    ensures |s.path| > 1 && GroupOf(s.groups, s.path).Ok?
    ensures var m := MoveTodoDownIn(Holder(s), LastIndex(s)); MoveTodoDownStep(s) == After(Rewrite(s, m.0, m.1), Continue)
    ensures var m := MoveTodoUpIn(Holder(s), LastIndex(s)); MoveTodoUpStep(s) == After(Rewrite(s, m.0, m.1), Continue)
  {
    OnTodoFacts(s);
  }

  /** The cursor follows the moved todo: it selects the same todo afterwards. */
  lemma MoveTodoFollows(s: State)
    requires |s.path| > 0 && OnTodo(s)
    ensures var r := MoveTodoDownStep(s);
            r.outcome == Continue && Valid(r.state.groups, r.state.path)
            && ItemOf(r.state.groups, r.state.path).value.item == ItemOf(s.groups, s.path).value.item
    ensures var r := MoveTodoUpStep(s);
            r.outcome == Continue && Valid(r.state.groups, r.state.path)
            && ItemOf(r.state.groups, r.state.path).value.item == ItemOf(s.groups, s.path).value.item
  {
    OnTodoFacts(s);
    var g, k := Holder(s), LastIndex(s);
    var down, up := MoveTodoDownIn(g, k), MoveTodoUpIn(g, k);
    RewriteSelects(s, down.0, down.1);
    RewriteSelects(s, up.0, up.1);
  }

  /** Moving a todo down and back up restores the state. */
  lemma MoveTodoRoundTrip(s: State)
    requires |s.path| > 0 && OnTodo(s)
    requires MoveTodoDownStep(s).state.path != s.path
    ensures MoveTodoUpStep(MoveTodoDownStep(s).state) == After(s, Continue)
  {
    OnTodoFacts(s);
    var g, k := Holder(s), LastIndex(s);
    var m := MoveTodoDownIn(g, k);
    var t := Rewrite(s, m.0, m.1);
    MoveTodoSteps(s);
    assert m.1 == k + 1;
    RewriteSelects(s, m.0, m.1);
    assert OnTodo(t) && Holder(t) == m.0 && LastIndex(t) == k + 1;
    MoveTodoDownThenUp(g, k);
    MoveTodoSteps(t);
    assert MoveTodoUpIn(Holder(t), LastIndex(t)) == (g, k);
    RewriteBack(s, m.0, m.1);
  }

  // ---------------------------------------------------------------------
  // Moving and hiding groups.

  /** `move_group_down`: the group `find_group_mut` returns has its
      subgroups at the last index and the next one swapped, and the last
      index follows. Below the roots that group holds the selected group;
      at the roots it is the selected root itself. */
  function MoveGroupDownStep(s: State): After
    requires |s.path| > 0
  {
    match ItemOf(s.groups, s.path)
    case Err(e) => After(s, Stopped(e))
    case Ok(f) =>
      if f.item.GroupItem? then
        var m := MoveGroupDownIn(Holder(s), LastIndex(s));
        After(Rewrite(s, m.0, m.1), Continue)
      else After(s, Continue)
  }

  /** The slice swap of `move_group_up` panics: at the roots, a selected
      root whose index is past its own subgroup list. */
  predicate MoveGroupUpPanics(s: State)
    requires |s.path| > 0
  {
    OnGroup(s) && |s.path| == 1 && 0 < s.path[0] && |s.groups[s.path[0]].subgroups| <= s.path[0]
  }

  /** `move_group_up`, the mirror image of `move_group_down`. */
  function MoveGroupUpStep(s: State): After
    requires |s.path| > 0 && !MoveGroupUpPanics(s)
  {
    match ItemOf(s.groups, s.path)
    case Err(e) => After(s, Stopped(e))
    case Ok(f) =>
      if f.item.GroupItem? then
        var m := MoveGroupUpIn(Holder(s), LastIndex(s));
        After(Rewrite(s, m.0, m.1), Continue)
      else After(s, Continue)
  }

  /** Each group move writes the moved holder and the new last index. */
  lemma MoveGroupDownSteps(s: State)
    requires |s.path| > 0 && OnGroup(s)
    ensures GroupOf(s.groups, s.path).Ok?
    ensures var m := MoveGroupDownIn(Holder(s), LastIndex(s)); MoveGroupDownStep(s) == After(Rewrite(s, m.0, m.1), Continue)
  {
  }

  lemma MoveGroupUpSteps(s: State)
    requires |s.path| > 0 && OnGroup(s) && !MoveGroupUpPanics(s)
    ensures GroupOf(s.groups, s.path).Ok?
    ensures LastIndex(s) == 0 || LastIndex(s) < |Holder(s).subgroups|
    ensures var m := MoveGroupUpIn(Holder(s), LastIndex(s)); MoveGroupUpStep(s) == After(Rewrite(s, m.0, m.1), Continue)
  {
  }

  /** Below the roots, the cursor follows the moved group. */
  lemma MoveGroupFollows(s: State)
    requires |s.path| > 1 && OnGroup(s)
    ensures var r := MoveGroupDownStep(s);
            r.outcome == Continue && Valid(r.state.groups, r.state.path)
            && ItemOf(r.state.groups, r.state.path).value.item == ItemOf(s.groups, s.path).value.item
    ensures !MoveGroupUpPanics(s)
    ensures var r := MoveGroupUpStep(s);
            r.outcome == Continue && Valid(r.state.groups, r.state.path)
            && ItemOf(r.state.groups, r.state.path).value.item == ItemOf(s.groups, s.path).value.item
  {
    OnGroupFacts(s);
    MoveGroupDownSteps(s);
    MoveGroupUpSteps(s);
    var g, k := Holder(s), LastIndex(s);
    var down, up := MoveGroupDownIn(g, k), MoveGroupUpIn(g, k);
    RewriteSelects(s, down.0, down.1);
    RewriteSelects(s, up.0, up.1);
  }

  /** Below the roots, moving a group down and back up restores the state. */
  lemma MoveGroupRoundTrip(s: State)
    requires |s.path| > 1 && OnGroup(s)
    requires MoveGroupDownStep(s).state.path != s.path
    ensures !MoveGroupUpPanics(MoveGroupDownStep(s).state)
    ensures MoveGroupUpStep(MoveGroupDownStep(s).state) == After(s, Continue)
  {
    OnGroupFacts(s);
    var g, k := Holder(s), LastIndex(s);
    var m := MoveGroupDownIn(g, k);
    var t := Rewrite(s, m.0, m.1);
    assert MoveGroupDownStep(s).state == t && m.1 == k + 1 by {
      MoveGroupDownSteps(s);
    }
    assert |t.path| > 1 && OnGroup(t) && Holder(t) == m.0 && LastIndex(t) == k + 1 by {
      RewriteSelects(s, m.0, m.1);
    }
    assert MoveGroupUpIn(m.0, k + 1) == (g, k) by {
      MoveGroupDownThenUp(g, k);
    }
    assert MoveGroupUpStep(t) == After(Rewrite(t, g, k), Continue) by {
      MoveGroupUpSteps(t);
    }
    RewriteBack(s, m.0, m.1);
  }

  /** At the roots `find_group_mut` returns the selected root, so
      `move_group_down` reorders that root's own subgroups and moves the
      cursor to the next root, which need not exist. */
  lemma MoveGroupDownAtRoot()
    ensures var x, y := NewGroup("x", true), NewGroup("y", true);
            var s := State([NewGroup("r", true).(subgroups := [x, y])], [], [0]);
            var r := MoveGroupDownStep(s).state;
            && Valid(s.groups, s.path)
            && r.groups[0].subgroups == [y, x]
            && r.path == [1] && !Valid(r.groups, r.path)
  {
    var x, y := NewGroup("x", true), NewGroup("y", true);
    var root := NewGroup("r", true).(subgroups := [x, y]);
    var s := State([root], [], [0]);
    assert OnGroup(s) && Holder(s) == root && LastIndex(s) == 0;
    var moved := root.(subgroups := Swap([x, y], 0, 1));
    assert MoveGroupDownIn(root, 0) == (moved, 1);
    assert Swap([x, y], 0, 1) == [y, x];
    assert GroupRoute(s.path) == [0];
    assert ReplaceAt(s.groups, [0], moved) == [moved];
    assert MoveGroupDownStep(s).state == State([moved], [], [1]);
  }

  /** At the roots, `move_group_up` on a root whose index is past its own
      subgroup list panics. */
  lemma MoveGroupUpAtRootPanics()
    ensures var s := State([NewGroup("a", true), NewGroup("b", true)], [], [1]);
            Valid(s.groups, s.path) && MoveGroupUpPanics(s)
  {
  }

  /** The evident intent at the roots: swap the selected root with its
      neighbour and let the cursor follow it. Below the roots the written
      handler is kept. */
  function MoveGroupDownFixed(s: State): After
    requires |s.path| > 0
  {
    if |s.path| == 1 && OnGroup(s) then
      var i := s.path[0];
      if i + 1 < |s.groups| then After(State(Swap(s.groups, i, i + 1), s.archive, [i + 1]), Continue)
      else After(s, Continue)
    else MoveGroupDownStep(s)
  }

  function MoveGroupUpFixed(s: State): After
    requires |s.path| > 0
  {
    if |s.path| == 1 && OnGroup(s) then
      var i := s.path[0];
      if i > 0 then After(State(Swap(s.groups, i, i - 1), s.archive, [i - 1]), Continue)
      else After(s, Continue)
    else
      assert !MoveGroupUpPanics(s);
      MoveGroupUpStep(s)
  }

  /** With the correction the cursor follows the moved group at every
      depth, and the roots are only reordered. */
  lemma MoveGroupFixedFollows(s: State)
    requires |s.path| > 0 && OnGroup(s)
    ensures var r := MoveGroupDownFixed(s);
            r.outcome == Continue && Valid(r.state.groups, r.state.path)
            && ItemOf(r.state.groups, r.state.path).value.item == ItemOf(s.groups, s.path).value.item
            && (|s.path| == 1 ==> multiset(r.state.groups) == multiset(s.groups))
    ensures var r := MoveGroupUpFixed(s);
            r.outcome == Continue && Valid(r.state.groups, r.state.path)
            && ItemOf(r.state.groups, r.state.path).value.item == ItemOf(s.groups, s.path).value.item
            && (|s.path| == 1 ==> multiset(r.state.groups) == multiset(s.groups))
  {
    if |s.path| > 1 {
      MoveGroupFollows(s);
    }
  }

  /** `hide_group`: the selected group leaves its list and is appended to
      the matching archive (`archive_groups` for a root), and the cursor is
      clamped as after `archive_todo`. A root cursor never climbs. */
  function HideGroupStep(s: State): After
    requires |s.path| > 0
  {
    match ItemOf(s.groups, s.path)
    case Err(e) => After(s, Stopped(e))
    case Ok(f) =>
      if !f.item.GroupItem? then After(s, Continue)
      else if |s.path| == 1 then
        var i := s.path[0];
        var rest := Remove(s.groups, i);
        After(State(rest, s.archive + [s.groups[i]], if i >= |rest| && i > 0 then [i - 1] else s.path), Continue)
      else
        OnGroupFacts(s);
        var h := HideIn(Holder(s), LastIndex(s));
        After(State(ReplaceAt(s.groups, GroupRoute(s.path), h), s.archive, ClampAfterRemoval(s.path, Len(h))), Continue)
  }

  /** Hiding a root moves it from the roots to `archive_groups`; the cursor
      stays valid unless no root is left, and then it is `[0]`. */
  lemma HideRootKeepsCursor(s: State)
    requires |s.path| == 1 && OnGroup(s)
    ensures var r := HideGroupStep(s);
            && r.outcome == Continue
            && r.state.archive == s.archive + [s.groups[s.path[0]]]
            && multiset(r.state.groups) + multiset(r.state.archive) == multiset(s.groups) + multiset(s.archive)
            && (r.state.groups != [] ==> Valid(r.state.groups, r.state.path))
            && (r.state.groups == [] ==> r.state.path == [0])
  {
  }

  /** Hiding a subgroup moves it to its holder's `subgroup_archive`, nothing
      else in the forest changes, and the cursor stays valid. */
  lemma HideSubgroupKeepsCursor(s: State)
    requires |s.path| > 1 && OnGroup(s)
    ensures var r := HideGroupStep(s);
            && r.outcome == Continue && r.state.archive == s.archive
            && Valid(r.state.groups, r.state.path)
    ensures var g, k, r := Holder(s), LastIndex(s), HideGroupStep(s).state;
            var route := GroupRoute(s.path);
            && GroupAt(r.groups, route).Some?
            && GroupAt(r.groups, route).value.subgroupArchive == g.subgroupArchive + [g.subgroups[k]]
            && ReplaceAt(r.groups, route, g) == s.groups
  {
    OnGroupFacts(s);
    var g, k := Holder(s), LastIndex(s);
    var h := HideIn(g, k);
    var q := ClampAfterRemoval(s.path, Len(h));
    HolderWritten(s.groups, s.path, h, if |q| == |s.path| then q[|q| - 1] else 0);
    GroupRouteFinds(s.groups, s.path);
    ReplaceAtRoundTrip(s.groups, GroupRoute(s.path), h);
    if |q| == |s.path| {
      assert q == s.path[..|s.path| - 1] + [q[|q| - 1]];
    }
  }

  // ---------------------------------------------------------------------
  // New roots.

  /** Appending a root: `add_top_group` (open) and `create_top_group` (closed). */
  function PushRoot(s: State, name: string, open: bool): (r: State)
    ensures r.groups == s.groups + [NewGroup(name, open)] && r.archive == s.archive && r.path == s.path
  {
    s.(groups := s.groups + [NewGroup(name, open)])
  }

  /** Every cursor lookup that worked before still finds the same item. */
  lemma PushRootKeepsItems(s: State, name: string, open: bool)
    requires Valid(s.groups, s.path)
    ensures ItemOf(PushRoot(s, name, open).groups, s.path) == ItemOf(s.groups, s.path)
  {
    var r := PushRoot(s, name, open);
    assert r.groups[s.path[0]] == s.groups[s.path[0]];
  }

  /** What the event loop does before and after each event: an empty forest
      gets a closed root through `create_top_group`. */
  function FillBlank(s: State, name: string): (r: State)
    ensures r.groups != []
    ensures s.groups != [] ==> r == s
  {
    if s.groups == [] then PushRoot(s, name, false) else s
  }

  /** After hiding the last root, filling the blank makes the cursor valid again. */
  lemma HideLastRootRefilled(s: State, name: string)
    requires |s.path| == 1 && OnGroup(s) && HideGroupStep(s).state.groups == []
    ensures Valid(FillBlank(HideGroupStep(s).state, name).groups, FillBlank(HideGroupStep(s).state, name).path)
  {
    HideRootKeepsCursor(s);
  }

  // ---------------------------------------------------------------------
  // The whole-tree passes.

  /** The clean command: `archive_groups` emptied and every group of every
      root cleaned. */
  function CleanStep(s: State): (r: State)
    ensures r.archive == [] && r.path == s.path && |r.groups| == |s.groups|
    ensures forall i :: 0 <= i < |r.groups| ==> NoArchives(r.groups[i]) && SameShown(r.groups[i], s.groups[i])
  {
    var r := State(MapEach(s.groups, CleanGroup, ()), [], s.path);
    forall i | 0 <= i < |r.groups| ensures NoArchives(r.groups[i]) && SameShown(r.groups[i], s.groups[i]) {
      CleanEmptiesArchives(s.groups[i]);
    }
    r
  }

  /** Cleaning shows the same tree, so every cursor lookup succeeds or
      fails as before. */
  lemma CleanKeepsCursor(s: State)
    requires |s.path| > 0
    ensures ItemOf(CleanStep(s).groups, s.path).Ok? <==> ItemOf(s.groups, s.path).Ok?
  {
    GroupOfMapped(s.groups, CleanGroup, (), s.path);
  }

  /** The sweep run before each event: every group of every root is swept
      with the same clock reading. */
  function SweepAll(s: State, now: Option<int>, archiveTime: int): (r: State)
    ensures r.archive == s.archive && r.path == s.path && |r.groups| == |s.groups|
    ensures forall i :: 0 <= i < |r.groups| ==> ActiveCount(r.groups[i]) == ActiveCount(s.groups[i])
  {
    var r := s.(groups := MapEach(s.groups, SweepEdit(now), archiveTime));
    forall i | 0 <= i < |r.groups| ensures ActiveCount(r.groups[i]) == ActiveCount(s.groups[i]) {
      SweepKeepsCount(s.groups[i], now, archiveTime);
    }
    r
  }

  /** The sweep does not repair the cursor: a selected completed todo that
      expires is archived and leaves the cursor past the end of its group,
      so the next guarded key ends the program. */
  lemma SweepStrandsCursor()
    ensures var t := Todo("t", Some(0), None, 0);
            var s := State([NewGroup("g", true).(completed := [t])], [], [0, 0]);
            var r := SweepAll(s, Some(2), 1);
            && Valid(s.groups, s.path)
            && ItemOf(r.groups, r.path) == Err(OutOfBounds)
  {
    var t := Todo("t", Some(0), None, 0);
    var g := NewGroup("g", true).(completed := [t]);
    var s := State([g], [], [0, 0]);
    var r := SweepAll(s, Some(2), 1);
    assert Expired(t, Some(2), 1);
    assert [t][1..] == [];
    assert Kept([t], Some(2), 1) == [];
    assert SweepGroup(g, Some(2), 1).completed == [];
    assert r.groups[0] == MapTree(g, SweepEdit(Some(2)), 1);
    assert r.groups[0].completed == [];
  }

  /** The cursor repair the sweep evidently needs: a path whose last index
      fell off the end is clamped to the last child, or climbs to the group
      when it has none left. */
  function Reclamp(groups: seq<Group>, p: seq<nat>): (r: seq<nat>)
    requires |p| > 0
    ensures ItemOf(groups, p).Ok? ==> r == p
    ensures |p| > 1 && GroupOf(groups, p).Ok? ==> Valid(groups, r)
  {
    if |p| == 1 || ItemOf(groups, p).Ok? || GroupOf(groups, p).Err? then p
    else
      var g := GroupOf(groups, p).value;
      if Len(g) > 0 then
        GroupOfIgnoresLast(groups, p, Len(g) - 1);
        p[..|p| - 1] + [Len(g) - 1]
      else
        ItemOfPop(groups, p);
        p[..|p| - 1]
  }

  /** The corrected sweep: the written sweep followed by `Reclamp`. */
  function SweepAllFixed(s: State, now: Option<int>, archiveTime: int): State {
    var r := SweepAll(s, now, archiveTime);
    r.(path := if |r.path| > 0 then Reclamp(r.groups, r.path) else r.path)
  }

  /** With the repair every valid cursor stays valid across the sweep, and
      one the sweep did not disturb is left alone. */
  lemma SweepFixedKeepsCursor(s: State, now: Option<int>, archiveTime: int)
    requires Valid(s.groups, s.path)
    ensures Valid(SweepAllFixed(s, now, archiveTime).groups, SweepAllFixed(s, now, archiveTime).path)
    ensures Valid(SweepAll(s, now, archiveTime).groups, s.path) ==> SweepAllFixed(s, now, archiveTime).path == s.path
  {
    GroupOfMapped(s.groups, SweepEdit(now), archiveTime, s.path);
  }
}
