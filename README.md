# dmc-todo outline core in Dafny

dmc-todo is a terminal to-do manager. It keeps an outline: a forest of
groups, where each group holds subgroups, active todos and completed todos,
and keeps two archive lists for removed todos and subgroups. The user moves
an index-path cursor over the visible rows and edits the outline with single
keys. This project models that outline and cursor, and proves properties of
both.

What is modelled, module by module:

- `Tree`: the `Todo` and `Group` records of `todo_config.rs`.
  - A group's children are read in the order subgroups, then todos, then
    completed. `Len`, `IsEmpty`, `Children` and `Child` describe that order.
  - `NumToStr` is the digit glyph.
- `Traversal`: the `traverse` fold as a recursive function, and `traverse_mut`
  as a function that returns the rebuilt tree with the accumulator.
  - `Order` lists the visits the fold makes: enter a group, its todos as
    leaves, leave the group.
  - The lemmas prove that the fold is a replay of that list.
- `Rendering`:
  - `todo_count` is proved equal to a structural count of active todos,
    independent of every `open` flag.
  - The string `format_hierarchy` is proved to render exactly the visible
    rows, one line each.
- `Config`: the `TodoConfig` class (`groups`, `archiveGroups`, `archiveTime`)
  and its default welcome outline.
- `Paths`: resolving an index path (`find_item`, `find_group`) with the
  errors `NoIndex`, `GroupNotFound` and `OutOfBounds`.
  - A `&mut Group` handed out by `find_group_mut` or `find_item_mut` is
    modelled as a route into the forest.
  - `ReplaceAt` writes a group back along that route.
- `Navigation`: every cursor move as a function from the forest and the old
  path to the new path and status. The lemmas prove the moves keep a valid
  selection and do what the cursor promises.
- `Cursor`: the `PositionHierarchy` class with its `indexes` field.
  - Each method is proved to leave `indexes` as the matching `Navigation`
    function says.
  - `VertPos`, `VertOffset` and the row arithmetic are in `Position`.
- `Dates`: the due-date dialogues, reduced to how the user's answer ends
  (`Keep`, `Clear`, `Set`, `Unreadable`).
- `Edits`: the in-group splices the handlers perform: toggle, archive, hide,
  swap-move, add, rename and edit. Each comes with counting and tidiness
  lemmas.
- `Archive`: the periodic archive sweep and the clean purge, as tree maps
  over `traverse_mut`.
- `Handlers`: each key handler of `main.rs` as a step function from a
  `State` (forest, archived roots, cursor path) to the new state and an
  `Outcome`.
  - `Continue`: the loop goes on.
  - `Stopped(e)`: a `?` error ended the loop.
  - `NoClock`: the clock read failed.
  - The lemmas state what each handler promises.
- `Keys`: the same handlers as imperative methods over a `TodoConfig` and a
  `PositionHierarchy`. Each is proved to reach exactly the state and outcome
  of its step function.

## Model

| member | source | states |
|---|---|---|
| `Tree.IsEmpty` | src/todo_config.rs:90-92 | a group is empty iff its length is 0, iff it has no children; the archive lists play no part |
| `Tree.Children` | src/todo_config.rs:94-96 | the child list of a group has exactly `len` entries |
| `Tree.Child` | src/navigation.rs:74-117 | child `k` exists iff `k < len`, and it is a subgroup iff `k` is below the number of subgroups |
| `Tree.ChildIsChildren` | src/navigation.rs:74-117 | `Child(g, k)` is entry `k` of subgroups ++ todos ++ completed, and nothing at or beyond `len` |
| `Tree.NumToStr` | src/todo_config.rs:370-381 | the digit for `n` below 10, `'+'` otherwise, so always one of `0`-`9` or `+` |
| `Tree.Len` | src/todo_config.rs:94-96 | `len` counts subgroups, todos and completed todos; `Tree.Children` and `Tree.IsEmpty` carry what that count means |
| `Traversal.Order` | src/todo_config.rs:33-54 | the visit list of a group starts by entering it and ends by leaving it, at its own depth |
| `Traversal.Traverse` | src/todo_config.rs:33-54 | `traverse`; its visit order is stated by `Traversal.TraverseFollowsOrder` and `Traversal.TraverseSkipsChildren` |
| `Traversal.TraverseEach` | src/todo_config.rs:43-45 | the subgroup loop of `traverse`; `Traversal.TraverseEachFollowsOrder` states that it visits the siblings one after another |
| `Traversal.FoldTodos` | src/todo_config.rs:46-51 | the two todo loops of `traverse`; `Traversal.FoldTodosReplays` states their order and depth |
| `Traversal.FoldTodosReplays` | src/todo_config.rs:46-51 | the todo loop of `traverse` is the replay of one leaf visit per todo, in list order, one level deeper |
| `Traversal.TraverseFollowsOrder` | src/todo_config.rs:33-54 | for a pre-handler whose descend decision does not depend on the accumulator (both source callers), `traverse` equals replaying its visit list: pre-handler, then each subgroup fully, then todos, then completed, then the after-handler |
| `Traversal.TraverseDescendFollowsOrder` | src/todo_config.rs:41-51 | under the same restriction on the descend decision, when the pre-handler descends, the fold visits the subgroups at depth+1 in order, then todos, then completed |
| `Traversal.TraverseEachFollowsOrder` | src/todo_config.rs:43-45 | under the same restriction on the descend decision, folding a list of sibling groups replays their visit lists one after another |
| `Traversal.TraverseSkipsChildren` | src/todo_config.rs:40-53 | when the pre-handler says no, the after-handler receives exactly the accumulator the pre-handler returned |
| `Traversal.TraverseEachMut` | src/todo_config.rs:66-69 | `traverse_mut` over a subgroup list keeps its length |
| `Traversal.FoldTodosMut` | src/todo_config.rs:70-75 | the mutable todo loop keeps the number of todos |
| `Traversal.FoldTodosMutReadOnly` | src/todo_config.rs:70-75 | with a todo handler that leaves the todo alone, the mutable loop keeps the list and folds like the read-only one |
| `Traversal.TraverseMutReadOnly` | src/todo_config.rs:56-78 | with handlers that do not touch the node, `traverse_mut` leaves the tree unchanged and returns what `traverse` returns |
| `Traversal.TraverseMut` | src/todo_config.rs:56-78 | `traverse_mut`, returning the rebuilt group and the value; `Traversal.TraverseMutReadOnly` and `Archive.TraverseMutMaps` carry its properties |
| `Traversal.TraverseEachMutReadOnly` | src/todo_config.rs:66-69 | the same for a list of sibling groups |
| `Rendering.ActiveIn` | src/todo_config.rs:84 | the number of todos without a done time is at most the list length |
| `Rendering.TodoCount` | src/todo_config.rs:80-88 | `todo_count` through `traverse`; `Rendering.TodoCountIsActiveCount` proves it counts the undone todos of the whole tree |
| `Rendering.ActiveCount` | src/todo_config.rs:80-88 | the independent reference count of undone todos over todos, completed and all subgroups, against which `Rendering.TodoCountIsActiveCount` checks `todo_count` |
| `Rendering.FoldCount` | src/todo_config.rs:80-88 | the counting todo handler adds one per todo whose done time is None |
| `Rendering.TraverseCounts` | src/todo_config.rs:80-88 | the counting fold from `count` ends at `count` plus the active todos of the whole subtree |
| `Rendering.TraverseEachCounts` | src/todo_config.rs:80-88 | the same over a list of sibling groups |
| `Rendering.TodoCountIsActiveCount` | src/todo_config.rs:80-88 | `todo_count` equals the structural count of active todos in `todos` and `completed` anywhere below |
| `Rendering.ActiveCountIgnoresOpen` | src/todo_config.rs:80-88 | two trees that differ only in `open` flags have the same active count |
| `Rendering.ActiveEachIgnoresOpen` | src/todo_config.rs:80-88 | the same for two lists of groups that agree entry by entry |
| `Rendering.TodoCountIgnoresOpen` | src/todo_config.rs:80-88 | `todo_count` does not depend on any `open` flag |
| `Rendering.Indent` | src/todo_config.rs:390 | the indentation for depth `d` is `2*d` spaces |
| `Rendering.LineLayout` | src/todo_config.rs:389-398 | a rendered line is the indentation, `[`, the marker, `] `, the name and `\r\n`, at those exact positions |
| `Rendering.ReplayRenders` | src/todo_config.rs:383-416 | replaying visits with the rendering handlers appends the rendering of the visible rows |
| `Rendering.TraverseRenders` | src/todo_config.rs:387-413 | rendering one root appends one line per visible row of that root |
| `Rendering.FormatFromRenders` | src/todo_config.rs:385-415 | the loop over the roots appends the rows of the roots in order, starting at depth 1 |
| `Rendering.FormatHierarchyRendersRows` | src/todo_config.rs:383-416 | `format_hierarchy` is the concatenation of one rendered line per visible row, in row order (a row's line: a group marked `*` if open, else by the glyph of its todo count; a todo marked `*` iff done) |
| `Rendering.FormatHierarchy` | src/todo_config.rs:383-416 | `format_hierarchy`; `Rendering.FormatHierarchyRendersRows` states it is the rendering of the visible rows, line by line |
| `Rendering.VisibleRows` | src/todo_config.rs:383-416 | the rows `format_hierarchy` prints: every group header, and the children of open groups only; `Rendering.GroupRows` and `Config.WelcomeRows` state their shape |
| `Rendering.GroupRows` | src/todo_config.rs:33-54 | the rows of a group are its header, then, only if it is open, the rows of its subgroups, its todos and its completed todos, one level deeper |
| `Rendering.FlipKeepsContent` | src/navigation.rs:328-339 | setting a group's `open` flag changes nothing else about it |
| `Config.WelcomeForest` | src/todo_config.rs:302-368 | the default forest is one open, shown root "Welcome" with four children, no completed todos and empty archives |
| `Config.TodoConfig.Default` | src/todo_config.rs:302-368 | the default configuration holds the welcome forest, no archived roots and an archive time of one day |
| `Config.WelcomeCount` | src/todo_config.rs:302-368 | the welcome root has four active todos in its subtree |
| `Config.WelcomeRows` | src/todo_config.rs:302-368 | the welcome outline shows seven rows: the root, each subgroup with its todo, then the root's two todos |
| `Config.WelcomeRendering` | src/todo_config.rs:383-416 | the rendered welcome outline is exactly its seven lines, with markers and indentation |
| `Paths.GroupOf` | src/navigation.rs:192-210 | `find_group` succeeds iff the root index is in range and the middle indices walk through subgroups; otherwise it fails with `GroupNotFound` |
| `Paths.Walk` | src/navigation.rs:67-72 | the descent through the middle indexes of a path; `Paths.GroupOf`, `Paths.WalkReplaceIn` and `Archive.WalkMapTree` state what it reaches |
| `Paths.Resolve` | src/navigation.rs:52-118 | the independent recursive resolver of a path; `Paths.ItemOfResolves` proves `find_item` agrees with it |
| `Paths.ItemOf` | src/navigation.rs:52-118 | `find_item` reports depth `|p|-1`; a one-index path selects the root itself; otherwise the last index is read against the group `find_group` finds, failing with `OutOfBounds` past `len` and `GroupNotFound` on a bad group |
| `Paths.ItemOfResolves` | src/navigation.rs:52-118 | `find_item` agrees with an independent recursive resolver that walks one index at a time |
| `Paths.GroupOfIgnoresLast` | src/navigation.rs:192-210 | `find_group` does not read the last index |
| `Paths.GroupOfPush` | src/navigation.rs:192-210 | after pushing an index onto a path that selects a group, `find_group` returns that group |
| `Paths.ItemOfPop` | src/navigation.rs:192-210 | the group `find_group` returns is the item selected by the path without its last index |
| `Paths.GroupRoute` | src/navigation.rs:213-234 | the route `find_group_mut` follows is a non-empty prefix of the path |
| `Paths.GroupRouteFinds` | src/navigation.rs:213-234 | `find_group_mut` reaches a group iff `find_group` does, and it is the same group |
| `Paths.ReplaceAt` | src/navigation.rs:213-234 | writing through the reference keeps the number of roots and every other root |
| `Paths.WalkReplaceIn` | src/navigation.rs:213-234 | after writing a group at a route, the route leads to the written group |
| `Paths.ReplaceInSame` | src/navigation.rs:213-234 | writing back the group found at a route changes nothing |
| `Paths.ReplaceAtRoundTrip` | src/navigation.rs:213-234 | at root level, the written group is found at its route, and writing back what was there is the identity |
| `Paths.ReplaceInUndo` | src/navigation.rs:213-234 | writing the old group back undoes a write |
| `Paths.ReplaceAtUndo` | src/navigation.rs:213-234 | the same over the whole forest |
| `Position.GroupSize` | src/navigation.rs:236-244 | `group_size` is at least 1 |
| `Position.GroupSizeIsRows` | src/navigation.rs:236-244 | `group_size` is the number of rows the group shows: 1 if closed, else 1 plus its subgroups' sizes plus its todos and completed todos |
| `Position.SumSizesIsRows` | src/navigation.rs:240 | the sum of sizes of a list of groups is the number of rows they show |
| `Position.ForestRow` | src/navigation.rs:357-359 | row `k` of group `i` sits at row `Σ_{j<i} size(j) + k` of the list's rows |
| `Position.Below` | src/navigation.rs:370-392 | the rows between a root's header and the selected item; `Position.BelowIsRow` proves it is the item's row in the root's visible rows |
| `Position.VertPosOf` | src/navigation.rs:353-395 | `vert_pos`; `Position.VertPosIsRow` proves it is the selected item's row in the printed hierarchy |
| `Position.BelowIsRow` | src/navigation.rs:370-392 | the offset the `vert_pos` loop adds below a group is the row of the selected item, inside that group's rows |
| `Position.BelowSubgroupIsRow` | src/navigation.rs:373-385 | the same when the path enters a subgroup: one header row, the earlier subgroups' sizes, then the offset inside |
| `Position.SubgroupRow` | src/navigation.rs:373-385 | inside an open group, row `k` of subgroup `i` is row `1 + Σ_{j<i} size(j) + k` of the group |
| `Position.OpenRows` | src/todo_config.rs:41-51 | an open group's rows are the header and the subgroup rows, of length `1 + Σ sizes`, followed by its todo rows |
| `Position.TodoRow` | src/navigation.rs:386-392 | the todo at child index `k` sits at row `1 + Σ sizes + (k - |subgroups|)` of its open group |
| `Position.VertPosIsRow` | src/navigation.rs:353-395 | for a valid, shown selection, `vert_pos` succeeds and is the index of the selected item's row among the visible rows |
| `Position.VertOffsetOf` | src/navigation.rs:397-405 | `vert_offset` succeeds iff `vert_pos` does, and is `k * height` for the `k` with `4k <= pos < 4k + 4`, i.e. `(pos >> 2) * height`; four times it lies within three heights below `pos * height` |
| `Position.VertPosExample` | src/navigation.rs:353-395 | for an open root with two todos, `vert_pos([0, 1])` is 2 |
| `Navigation.SelectedGroupRoute` | src/navigation.rs:120-189 | `find_item_mut` hands out a group iff `find_item` selects one, and it is the same group |
| `Navigation.ReplaceAtSameForest` | src/navigation.rs:328-339 | rewriting a group with one that differs only in `open` flags keeps the forest's contents |
| `Navigation.GroupUpMove` | src/navigation.rs:290-298 | `group_up` fails with `NoIndex` on an empty path; otherwise it decrements the last index iff it is positive and changes nothing else |
| `Navigation.GroupDownMove` | src/navigation.rs:300-318 | `group_down` increments the last index iff it is below `|groups|-1` at root level or the parent's `len-1` below it; the path length and earlier indices stay; it fails only if `find_group` does |
| `Navigation.HierarchyUpPath` | src/navigation.rs:320-326 | `hierarchy_up` pops one index when the path is longer than 1, and is a no-op otherwise |
| `Navigation.HierarchyDownMove` | src/navigation.rs:328-351 | descending pushes 0 iff the selected item is a non-empty group; a resolution error is reported with the path unchanged |
| `Navigation.GroupUpKeepsValid` | src/navigation.rs:290-298 | `group_up` keeps a valid selection valid |
| `Navigation.GroupDownKeepsValid` | src/navigation.rs:300-318 | `group_down` cannot underflow on a valid selection, and keeps it valid |
| `Navigation.HierarchyUpKeepsValid` | src/navigation.rs:320-326 | `hierarchy_up` keeps a valid selection valid |
| `Navigation.HierarchyDownKeepsValid` | src/navigation.rs:341-351 | `hierarchy_down_no_open` keeps a valid selection valid |
| `Navigation.HierarchyDownOpens` | src/navigation.rs:328-339 | `hierarchy_down` changes only `open` flags, keeps the selection valid, leaves the entered group open, and changes nothing when it does not descend |
| `Navigation.CursorUpKeepsValid` | src/navigation.rs:247-262 | `cursor_up` succeeds on a valid selection and keeps it valid |
| `Navigation.CursorUpMove` | src/navigation.rs:247-262 | `cursor_up`; `Navigation.CursorUpKeepsValid`, `Navigation.CursorUpClimbs` and `Navigation.CursorUpSteps` carry its properties |
| `Navigation.CursorDownMove` | src/navigation.rs:264-288 | `cursor_down` as written; `Navigation.CursorDownKeepsValid`, `Navigation.CursorDownEnters`, `Navigation.CursorDownNextSibling` and `Navigation.CursorDownSkipsRoot` carry its properties |
| `Navigation.GroupDownSafe` | src/navigation.rs:300-318 | the states where `group_down` does not underflow: a non-empty forest at the roots, a non-empty parent group below them |
| `Navigation.CursorDownKeepsValid` | src/navigation.rs:264-288 | `cursor_down` succeeds on a valid selection and keeps it valid |
| `Navigation.CursorDownEnters` | src/navigation.rs:265-269 | on a selected open non-empty group, `cursor_down` only pushes 0 |
| `Navigation.CursorDownNextSibling` | src/navigation.rs:276-287 | below the roots, on anything but an open non-empty group, and with a next sibling, `cursor_down` only increments the last index |
| `Navigation.CursorUpClimbs` | src/navigation.rs:248-259 | with last index 0, `cursor_up` pops one level |
| `Navigation.CursorUpSteps` | src/navigation.rs:248-257 | otherwise it decrements the last index and, if that selects an open non-empty group, pushes that group's `len-1`, one level only |
| `Navigation.CursorDownSkipsRoot` | src/navigation.rs:270-285 | on a root that is not an open non-empty group, with two more roots after it, `cursor_down` lands two roots on, past a whole row of the outline |
| `Navigation.CursorDownSkipsExample` | src/navigation.rs:270-285 | with three closed roots, `cursor_down` from the first lands on the third |
| `Navigation.CursorDownFixedNextRow` | src/navigation.rs:270-285 | the corrected move from such a root lands on the next root, exactly one row down |
| `Navigation.CursorDownFixed` | src/navigation.rs:264-288 | `cursor_down` with the root case calling `group_down` once; `Navigation.CursorDownFixedNextRow` proves it moves to the next printed row |
| `Navigation.CursorDownFixedAgrees` | src/navigation.rs:264-288 | the corrected move equals `cursor_down` below the roots, and keeps every valid selection valid |
| `Cursor.PositionHierarchy.constructor` | src/navigation.rs:48-50 | a new cursor is the path `[0]` |
| `Cursor.PositionHierarchy.Last` | src/navigation.rs:10-12 | the last index, or `NoIndex` on an empty path |
| `Cursor.PositionHierarchy.SetLast` | src/navigation.rs:14-16 | writing through `last_mut` replaces only the last index, or fails with `NoIndex` on an empty path |
| `Cursor.PositionHierarchy.FindGroup` | src/navigation.rs:192-210 | the loop returns what `find_group` specifies |
| `Cursor.PositionHierarchy.FindItem` | src/navigation.rs:52-118 | the loop returns what `find_item` specifies |
| `Cursor.PositionHierarchy.FindGroupMut` | src/navigation.rs:213-234 | `find_group_mut` fails exactly as `find_group` does, and otherwise hands out the route to the same group |
| `Cursor.PositionHierarchy.FindItemMut` | src/navigation.rs:120-189 | `find_item_mut` fails exactly as `find_item` does, and otherwise hands out the same item: a group by its path, or a todo by its group's route, list and index |
| `Cursor.PositionHierarchy.GroupUp` | src/navigation.rs:290-298 | the new path and status are those of `group_up` |
| `Cursor.PositionHierarchy.GroupDown` | src/navigation.rs:300-318 | the new path and status are those of `group_down` |
| `Cursor.PositionHierarchy.HierarchyUp` | src/navigation.rs:320-326 | the new path pops one level above the roots, and the call succeeds |
| `Cursor.PositionHierarchy.HierarchyDown` | src/navigation.rs:328-339 | the new path and status are those of descending, and the only tree change is opening the entered group |
| `Cursor.PositionHierarchy.HierarchyDownNoOpen` | src/navigation.rs:341-351 | the new path and status are those of descending, with the tree untouched |
| `Cursor.PositionHierarchy.CursorUp` | src/navigation.rs:247-262 | the new path and status are those of `cursor_up` |
| `Cursor.PositionHierarchy.CursorDown` | src/navigation.rs:264-288 | the new path and status are those of `cursor_down`, including its second `group_down` at the roots |
| `Cursor.PositionHierarchy.VertPos` | src/navigation.rs:353-395 | the loop computes the row position the `vert_pos` specification gives |
| `Cursor.PositionHierarchy.VertOffset` | src/navigation.rs:397-405 | the result is `(vert_pos >> 2) * height` |
| `Dates.PromptDate` | src/main.rs:201-230 | a date comes back iff the answer was "y" with readable fields, and it is that date |
| `Dates.PromptDateInPlace` | src/main.rs:232-268 | "n" or an unreadable field gives nothing, "y" gives the new date, any other answer keeps the current one |
| `Dates.EditedDue` | src/main.rs:576-582 | without a date, the answer to `prompt_date` decides; a "y" answer always sets the date |
| `Dates.DueDateNeverCleared` | src/main.rs:576-582 | as written, a todo that has a due date keeps one whatever is answered, and keeps the old one unless "y" was answered |
| `Dates.EditedDueFixed` | src/main.rs:576-582 | the corrected rule: "n" clears the date, "y" sets it, anything else keeps it |
| `Dates.FixedDiffersOnlyOnClear` | src/main.rs:576-582 | the corrected and the written rule differ exactly when a dated todo is answered "n" |
| `Edits.Remove` | src/main.rs:466 | `Vec::remove(i)` keeps the entries before `i`, shifts the rest down by one, and loses exactly the entry at `i` |
| `Edits.Swap` | src/main.rs:655 | `Vec::swap(i, j)` exchanges two entries, keeps every other one, and permutes the list |
| `Edits.SwapSymmetric` | src/main.rs:655 | swapping `i` with `j` is swapping `j` with `i` |
| `Edits.SwapTwice` | src/main.rs:655 | swapping twice restores the list |
| `Edits.ActiveInRemove` | src/main.rs:466 | removing a todo lowers the active count by that todo's contribution |
| `Edits.ActiveEachRemove` | src/main.rs:525 | removing a subgroup lowers the active count by that subgroup's count |
| `Edits.ActiveEachSnoc` | src/main.rs:599 | appending a group raises the active count by that group's count |
| `Edits.ActiveEachSwap` | src/main.rs:655 | swapping neighbouring subgroups keeps the active count |
| `Edits.RemoveTodoChild` | src/main.rs:491 | removing an active todo removes exactly that child from the child order |
| `Edits.RemoveCompletedChild` | src/main.rs:493-494 | removing a completed todo removes exactly that child from the child order |
| `Edits.RemoveSubgroupChild` | src/main.rs:525 | removing a subgroup removes exactly that child from the child order |
| `Edits.TodoAt` | src/main.rs:464-477 | the todo a child index names is that child |
| `Edits.ToggleIn` | src/main.rs:464-477 | an active todo moves to the end of `completed` with the clock reading as its done time; a completed one moves to the end of `todos` with no done time; the list it leaves keeps the other todos in their order, as `Vec::remove` does; `len` and everything outside the todo lists stay; past `len` nothing changes |
| `Edits.ToggleActiveCount` | src/main.rs:464-477 | the active count changes by the toggled todo's contribution before and after |
| `Edits.ToggleKeepsTidy` | src/main.rs:464-477 | with a clock reading, toggling keeps every active todo undone and every completed todo done |
| `Edits.ToggleCountsOne` | src/main.rs:464-477 | with a clock reading, toggling an active todo lowers the count by one, and toggling a completed one raises it by one |
| `Edits.ToggleWithoutClock` | src/main.rs:467 | without a clock reading, completing a todo leaves it counted as active in `completed` |
| `Edits.ArchiveIn` | src/main.rs:489-496 | the selected todo leaves `todos` or `completed` and is appended to `todo_archive`; the other children keep their order |
| `Edits.ArchiveActiveCount` | src/main.rs:489-496 | archiving lowers the active count by the archived todo's contribution |
| `Edits.ArchiveKeepsTidy` | src/main.rs:489-496 | archiving keeps active todos undone and completed todos done |
| `Edits.RemoveKeepsUndone` | src/main.rs:491 | removing from a list of undone todos leaves a list of undone todos |
| `Edits.RemoveKeepsDone` | src/main.rs:493-494 | removing from a list of done todos leaves a list of done todos |
| `Edits.HideIn` | src/main.rs:524-526 | the selected subgroup leaves `subgroups` and is appended to `subgroup_archive`; the rest stays |
| `Edits.HideActiveCount` | src/main.rs:524-526 | hiding lowers the active count by the hidden subgroup's count |
| `Edits.ClampAfterRemoval` | src/main.rs:498-504 | after a removal the last index is kept if it is still below the new `len`, decremented if not and positive, and the path pops one level when the group became empty |
| `Edits.SwapTodosChild` | src/main.rs:689-692 | swapping active todos `k` and `k+1` exchanges exactly those two children |
| `Edits.SwapSubgroupsChild` | src/main.rs:655 | swapping subgroups `i` and `i+1` exchanges exactly those two children |
| `Edits.SwapTodosChildUp` | src/main.rs:710-713 | swapping active todos `k` and `k-1` exchanges exactly those two children |
| `Edits.SwapSubgroupsChildUp` | src/main.rs:671 | swapping subgroups `k` and `k-1` exchanges exactly those two children |
| `Edits.MoveTodoDownIn` | src/main.rs:685-694 | the todo moves one down, and the index follows it, iff both positions lie among the active todos; otherwise nothing changes; `todos` is permuted and the rest stays |
| `Edits.MoveTodoUpIn` | src/main.rs:706-715 | the todo moves one up, and the index follows it, iff both positions lie among the active todos; otherwise nothing changes |
| `Edits.MoveGroupDownIn` | src/main.rs:653-657 | the subgroup moves one down, and the index follows it, iff a next subgroup exists; `subgroups` is permuted and every other field, `hidden` included, stays |
| `Edits.MoveGroupUpIn` | src/main.rs:669-673 | the subgroup moves one up, and the index follows it, iff the index is positive; every other field stays |
| `Edits.MoveTodoDownThenUp` | src/main.rs:676-717 | moving a todo down and then up restores the group and the index |
| `Edits.MoveGroupDownThenUp` | src/main.rs:644-675 | moving a subgroup down and then up restores the group and the index |
| `Edits.MoveGroupKeepsCount` | src/main.rs:653-657 | moving a subgroup keeps the active count |
| `Edits.AddSubgroupIn` | src/main.rs:599-608 | `add_group` inserts a new open, empty subgroup after the existing subgroups; every other child keeps its order; the todo lists, the archives, the name and the flags stay; the active count stays |
| `Edits.AddTodoIn` | src/main.rs:550-555 | `add_todo` appends the todo to `todos`; every other child keeps its order; `completed`, the subgroups, the archives, the name and the flags stay; the count grows by the todo's contribution |
| `Edits.NewTodo` | src/main.rs:550-555 | a new todo is active |
| `Edits.Rename` | src/main.rs:626-628 | an empty answer keeps the name, and any other answer replaces it |
| `Edits.ToggleOpen` | src/main.rs:295-297 | toggling flips `open` and changes nothing else |
| `Edits.ToggleOpenTwice` | src/main.rs:295-297 | toggling twice restores the group |
| `Edits.EditedTodo` | src/main.rs:571-582 | editing keeps the done and creation times, takes a non-empty new name, and with an empty name and a keep or unreadable date answer changes nothing |
| `Edits.SetTodoIn` | src/main.rs:568-583 | writing through the todo reference replaces exactly that child and keeps every list length |
| `Edits.SetTodoSame` | src/main.rs:568-583 | writing back the selected todo unchanged is the identity |
| `Edits.EditKeepsTidy` | src/main.rs:568-583 | editing keeps active todos undone and completed todos done |
| `Archive.MapEach` | src/main.rs:380-381 | applying an edit to every root keeps their number and maps each one |
| `Archive.EditPreKeeps` | src/todo_config.rs:56-78 | an edit that leaves the subgroup list alone gives a pre-handler that keeps the subgroups |
| `Archive.TraverseMutMaps` | src/todo_config.rs:56-78 | `traverse_mut` with an editing pre-handler and idle other handlers applies the edit to every group of the subtree |
| `Archive.TraverseEachMutMaps` | src/todo_config.rs:66-69 | the same over a list of subgroups |
| `Archive.MapTreeIdempotent` | src/todo_config.rs:56-78 | applying an idempotent local edit to a whole tree twice is applying it once |
| `Archive.MapTree` | src/todo_config.rs:56-78 | the tree `traverse_mut` builds with an editing pre-handler; `Archive.TraverseMutMaps` proves the two agree |
| `Archive.MapEachIdempotent` | src/todo_config.rs:66-69 | the same over a list of groups |
| `Archive.WalkMapTree` | src/navigation.rs:192-210 | the group at any route of an edited tree is the edit of the group at that route |
| `Archive.GroupOfMapped` | src/navigation.rs:192-210 | `find_group` on an edited forest finds the edited group, or fails as before |
| `Archive.MapTreeCount` | src/todo_config.rs:80-88 | an edit that keeps each group's own active count keeps the subtree's count |
| `Archive.MapEachCount` | src/todo_config.rs:80-88 | the same over a list of groups |
| `Archive.Kept` | src/main.rs:383-391 | the completed todos the sweep keeps are not expired |
| `Archive.Expired` | src/main.rs:385-387 | a completed todo is swept when it has a done time, the clock reads, and the time since it was done exceeds `archive_time`; `Archive.KeptAndExpiredSplit` uses it to split the completed list |
| `Archive.ExpiredOf` | src/main.rs:383-391 | the completed todos the sweep archives are expired: done, with a clock reading, and older than the archive time |
| `Archive.Reversed` | src/main.rs:383 | the descending index loop meets the entries in reverse order |
| `Archive.ReversedMultiset` | src/main.rs:383 | reversal keeps the entries |
| `Archive.KeptAndExpiredSplit` | src/main.rs:383-391 | kept and archived todos together are exactly the completed todos |
| `Archive.KeptAllFresh` | src/main.rs:383-391 | with nothing expired, everything is kept and nothing archived |
| `Archive.KeptActive` | src/main.rs:383-391 | the sweep moves only done todos, so the active count of `completed` is unchanged |
| `Archive.SweepGroup` | src/main.rs:383-394 | the sweep of one group keeps only unexpired completed todos, appends the expired ones to `todo_archive` after the old archive, keeps `completed ++ todo_archive` as a multiset and leaves the rest |
| `Archive.SweepFreshGroup` | src/main.rs:383-394 | a group with nothing expired is left as it is |
| `Archive.SweepCompleted` | src/main.rs:383-391 | the descending `remove`/`push` loop computes exactly the sweep of the group |
| `Archive.SweepEditIsLocal` | src/main.rs:383-394 | the sweep edit leaves every group's subgroup list alone |
| `Archive.SweepTree` | src/main.rs:381-397 | the sweep's `traverse_mut` sweeps every group of the subtree |
| `Archive.SweepIdempotent` | src/main.rs:380-400 | a second sweep with the same clock reading changes nothing |
| `Archive.SweepKeepsCount` | src/main.rs:380-400 | the sweep keeps every subtree's active count |
| `Archive.CleanGroup` | src/main.rs:727-731 | clean empties a group's two archives and keeps its children, name and flags |
| `Archive.CleanTree` | src/main.rs:724-735 | clean's `traverse_mut` cleans every group of the subtree |
| `Archive.CleanEmptiesArchives` | src/main.rs:724-735 | after clean no group of the tree has an archived todo or subgroup, and the shown contents are unchanged |
| `Archive.CleanIdempotent` | src/main.rs:724-735 | cleaning twice is cleaning once |
| `Handlers.Rewrite` | src/main.rs:653-656 | writing a group back and setting the last index keeps the archive, the path length and the earlier indices |
| `Handlers.RewriteSelects` | src/main.rs:653-656 | after the write the path is valid, reads the written group, selects its child at the new index, and the old group can be written back |
| `Handlers.RewriteBack` | src/main.rs:653-656 | writing back the old group and index undoes the write |
| `Handlers.GroupKey` | src/main.rs:439-454 | a group key stops on a resolution error, ignores a selected todo, and otherwise replaces only the selected group by its edit, keeping path and archive |
| `Handlers.ToggleGroupTwice` | src/main.rs:439-454 | toggling a group changes only `open` flags, and toggling twice restores the state |
| `Handlers.ToggleGroupStep` | src/main.rs:439-454 | toggling a selected group's `open`; `Keys.ToggleGroupKey` is proved equal to it and `Handlers.ToggleGroupTwice` proves it is its own inverse |
| `Handlers.AddGroupAppends` | src/main.rs:586-611 | `add_group` appends a new open subgroup to the selected group, which stays selected, and the new subgroup is a valid selection |
| `Handlers.AddGroupStep` | src/main.rs:586-611 | appending a named subgroup to the selected group; `Handlers.AddGroupAppends` states the result |
| `Handlers.EditGroupRenames` | src/main.rs:612-631 | `edit_group` renames the selected group by the rename rule, and an empty answer changes nothing |
| `Handlers.EditGroupStep` | src/main.rs:612-631 | renaming the selected group; `Handlers.EditGroupRenames` states the result |
| `Handlers.AddTodoAppends` | src/main.rs:537-558 | `add_todo` stops without a clock; otherwise it appends an active todo with the prompted due date and the clock reading as creation time, raising the count by one |
| `Handlers.AddTodoStep` | src/main.rs:537-558 | appending a new todo to the selected group, or the `NoClock` exit; `Handlers.AddTodoAppends` states the result |
| `Handlers.ToggleTodoMoves` | src/main.rs:455-479 | `toggle_todo` keeps the path and a valid selection, and moves the todo to the end of the other list with the matching done time |
| `Handlers.ToggleTodoStep` | src/main.rs:455-479 | toggling the selected todo between the open and completed lists; `Handlers.ToggleTodoMoves` states the result |
| `Handlers.ActivateStep` | src/main.rs:287-324 | `activate_item` toggles `open` on a group and toggles done on a todo |
| `Handlers.ArchiveTodoSteps` | src/main.rs:480-506 | `archive_todo` archives the selected todo in its group and then clamps the path |
| `Handlers.ArchiveTodoStep` | src/main.rs:480-506 | moving the selected todo to the archive and clamping the cursor; `Handlers.ArchiveTodoSteps` and `Handlers.ArchiveTodoKeepsCursor` state the result |
| `Handlers.HideSubgroupSteps` | src/main.rs:522-533 | hiding a subgroup archives it in its parent and then clamps the path |
| `Handlers.HideGroupStep` | src/main.rs:507-536 | moving the selected group to its parent's archive, or the forest's, and clamping the cursor; `Handlers.HideSubgroupSteps`, `Handlers.HideRootKeepsCursor` and `Handlers.HideSubgroupKeepsCursor` state the result |
| `Handlers.ArchiveTodoKeepsCursor` | src/main.rs:480-506 | after `archive_todo` the selection is valid, the todo ends the group's archive, and the cursor stays on the next child, moves to the previous one at the end, or climbs when the group became empty |
| `Handlers.EditTodoSelects` | src/main.rs:559-585 | `edit_todo` keeps the path and writes the edited todo in place; an empty name with a keep answer changes nothing |
| `Handlers.EditTodoStep` | src/main.rs:559-585 | rewriting the selected todo from the prompt answers; `Handlers.EditTodoSelects` states the result |
| `Handlers.MoveTodoSteps` | src/main.rs:676-717 | the todo-move keys apply the in-group move to the selected todo's group and set the last index to where it went |
| `Handlers.MoveTodoDownStep` | src/main.rs:676-696 | swapping the selected todo with the next one and following it; `Handlers.MoveTodoSteps`, `Handlers.MoveTodoFollows` and `Handlers.MoveTodoRoundTrip` state the result |
| `Handlers.MoveTodoUpStep` | src/main.rs:697-717 | the same with the previous todo |
| `Handlers.MoveTodoFollows` | src/main.rs:676-717 | after moving a todo down or up, the same todo is still selected |
| `Handlers.MoveTodoRoundTrip` | src/main.rs:676-717 | a todo move down that moved something is undone by a move up |
| `Handlers.MoveGroupDownSteps` | src/main.rs:644-659 | `move_group_down` applies the subgroup move to the group `find_group_mut` returns |
| `Handlers.MoveGroupDownStep` | src/main.rs:644-659 | swapping the selected group with its next sibling in the holder's subgroups, as written; `Handlers.MoveGroupDownSteps` and `Handlers.MoveGroupDownAtRoot` state the result |
| `Handlers.MoveGroupUpStep` | src/main.rs:660-675 | the same with the previous sibling; `Handlers.MoveGroupUpSteps` and `Handlers.MoveGroupUpAtRootPanics` state the result |
| `Handlers.MoveGroupUpSteps` | src/main.rs:660-675 | `move_group_up`, when it does not panic, applies the subgroup move up to that group |
| `Handlers.MoveGroupFollows` | src/main.rs:644-675 | below the roots, moving a group down or up never panics and keeps the same group selected |
| `Handlers.MoveGroupRoundTrip` | src/main.rs:644-675 | below the roots, a group move down that moved something is undone by a move up |
| `Handlers.MoveGroupDownAtRoot` | src/main.rs:652-657 | at the roots, `move_group_down` swaps the selected root's own subgroups and leaves the cursor past the last root |
| `Handlers.MoveGroupUpAtRootPanics` | src/main.rs:668-672 | at the roots, `move_group_up` on the second of two childless roots indexes past the root's subgroups |
| `Handlers.MoveGroupFixedFollows` | src/main.rs:644-675 | the corrected moves keep the same group selected at every level, and at the roots only permute the roots |
| `Handlers.MoveGroupDownFixed` | src/main.rs:644-659 | `move_group_down` with roots swapped in the forest itself; `Handlers.MoveGroupFixedFollows` proves the cursor follows the moved group |
| `Handlers.MoveGroupUpFixed` | src/main.rs:660-675 | the same for `move_group_up` |
| `Handlers.HideRootKeepsCursor` | src/main.rs:516-521 | hiding a root moves it to the end of the archived roots, keeps roots plus archive as a multiset, and leaves a valid selection unless no root is left |
| `Handlers.HideSubgroupKeepsCursor` | src/main.rs:522-533 | hiding a subgroup appends it to its parent's archive, undoably, and leaves a valid selection |
| `Handlers.PushRoot` | src/main.rs:632-643 | a new root is appended after the others, and nothing else changes |
| `Handlers.PushRootKeepsItems` | src/main.rs:632-643 | appending a root keeps what every valid path selects |
| `Handlers.FillBlank` | src/main.rs:376-378 | after filling blanks the forest is not empty, and a non-empty forest is untouched |
| `Handlers.HideLastRootRefilled` | src/main.rs:376-378 | after hiding the last root, filling the blank makes the cursor valid again |
| `Handlers.CleanStep` | src/main.rs:718-736 | clean empties the archived roots, keeps the path and the number of roots, and leaves every root without archives and with the same shown contents |
| `Handlers.CleanKeepsCursor` | src/main.rs:718-736 | clean does not change whether the cursor resolves |
| `Handlers.SweepAll` | src/main.rs:380-400 | the sweep keeps the path, the archived roots, the number of roots and each root's active count |
| `Handlers.SweepStrandsCursor` | src/main.rs:380-400 | a cursor on an expired completed todo resolves to `OutOfBounds` after the sweep |
| `Handlers.SweepFixedKeepsCursor` | src/main.rs:380-400 | the corrected sweep leaves a valid selection, and keeps the path whenever it is still valid |
| `Handlers.Reclamp` | src/main.rs:498-504 | the repair the sweep lacks, after the clamp `archive_todo` applies: a cursor whose item is still there is kept, and one below the roots whose group exists is clamped to that group's last child, or climbs to the group, and is valid again |
| `Handlers.SweepAllFixed` | src/main.rs:380-400 | the sweep followed by that clamp; `Handlers.SweepFixedKeepsCursor` proves every valid cursor stays valid |
| `Keys.EditSelectedGroup` | src/main.rs:439-454 | the state and outcome after editing the selected group through `find_item_mut` are those of the group-key step |
| `Keys.ToggleGroupKey` | src/main.rs:439-454 | the new state and outcome are those of the `toggle_group` step |
| `Keys.AddGroupKey` | src/main.rs:586-611 | the new state and outcome are those of the `add_group` step |
| `Keys.EditGroupKey` | src/main.rs:612-631 | the new state and outcome are those of the `edit_group` step |
| `Keys.AddTodoKey` | src/main.rs:537-558 | the new state and outcome are those of the `add_todo` step |
| `Keys.ToggleHeld` | src/main.rs:464-477 | the in-place splice on the held group computes the toggle |
| `Keys.ArchiveHeld` | src/main.rs:489-496 | the in-place splice on the held group computes the archive |
| `Keys.EditHeld` | src/main.rs:568-583 | writing through the todo reference replaces the selected child by the edited todo |
| `Keys.HideHeld` | src/main.rs:524-526 | the in-place splice on the held group computes the hide |
| `Keys.ClampCursor` | src/main.rs:498-504 | the path after the clamp is the clamp rule applied to the old path |
| `Keys.ToggleTodoKey` | src/main.rs:455-479 | the new state and outcome are those of the `toggle_todo` step |
| `Keys.ActivateItem` | src/main.rs:287-324 | the new state and outcome are those of the `activate_item` step |
| `Keys.ArchiveTodoKey` | src/main.rs:480-506 | the new state and outcome are those of the `archive_todo` step |
| `Keys.ArchiveSelected` | src/main.rs:486-505 | on a selected todo, the new state is that of the `archive_todo` step |
| `Keys.EditTodoKey` | src/main.rs:559-585 | the new state and outcome are those of the `edit_todo` step |
| `Keys.EditSelected` | src/main.rs:566-584 | on a selected todo, the new state is that of the `edit_todo` step |
| `Keys.MoveTodoDownKey` | src/main.rs:676-696 | the new state and outcome are those of the `move_todo_down` step |
| `Keys.MoveTodoUpKey` | src/main.rs:697-717 | the new state and outcome are those of the `move_todo_up` step |
| `Keys.MoveGroupDownKey` | src/main.rs:644-659 | the new state and outcome are those of the `move_group_down` step |
| `Keys.MoveGroupUpKey` | src/main.rs:660-675 | the new state and outcome are those of the `move_group_up` step |
| `Keys.HideGroupKey` | src/main.rs:507-536 | the new state and outcome are those of the `hide_group` step |
| `Keys.AddTopGroup` | src/main.rs:632-643 | `add_top_group` appends a new open root and changes nothing else |
| `Keys.CreateTopGroup` | src/main.rs:270-285 | `create_top_group` appends a new closed root and changes nothing else |
| `Keys.SweepRoot` | src/main.rs:381-397 | sweeping one root sweeps every group of it and keeps its active count |
| `Keys.CleanRoot` | src/main.rs:724-735 | cleaning one root leaves no archives in it and keeps its shown contents |
| `Keys.ArchiveSweep` | src/main.rs:380-400 | the sweep loop replaces every root by its sweep and leaves the archived roots and the archive time |
| `Keys.Clean` | src/main.rs:718-736 | clean empties the archived roots and replaces every root by its cleaned form |

## Left out

- The prompts and the terminal (src/main.rs:135-268 and 34-133). Prompt answers are parameters: a name string, or a `DateAnswer` for the date dialogues. `draw_vis`, colours, human-readable times and the crossterm `format_hierarchy` are not modelled. Only the string `format_hierarchy` of todo_config.rs is.
- The event loop in `main`: `poll`, `read`, mouse capture, save and quit, and the dispatch from key codes to handlers. Each handler body is modelled on its own.
  - Four default keys are shared by a group handler and a todo handler: space, `e`, `i` and `k`. The dispatch is one `else if` chain, and each branch also tests the kind of the selected item, so at most one handler of a pair runs. The chain tests `toggle_group` before `toggle_todo`, `edit_todo` before `edit_group`, and `move_group_down`/`move_group_up` before `move_todo_down`/`move_todo_up`. The model keeps each pair apart. `ActivateStep` is the one dispatch by item kind it models.
  - The `Keybindings` struct and its defaults are configuration only.
- `read_config`, `write_config` and `ConfigError`: file I/O and serialisation.
- src/command_manager.rs is not part of this model. It has no callers.
- `vert_pos_offset` is not modelled. It subtracts in `usize`, can underflow, and nothing calls it.
- The terminal height in `vert_offset` is a parameter, not a call to `crossterm::terminal::size()`.
- Time is modelled as `int` timestamps and durations. The clock is an `Option<int>` parameter, with `None` for a failed `now_local()`.
  - The sweep reads the clock once per sweep. The source reads it again for every completed todo.
  - In `add_todo` a failed clock read is an early exit. It is modelled as the `NoClock` outcome.
- Errors raised with `?` end the event loop. Each such exit is the `Stopped` outcome carrying the `MoveError`.
- Mutable references into the tree are routes plus a rewrite of the forest (`ReplaceAt`). Aliasing and in-place update are not modelled beyond that.
- Panics in the source are preconditions:
  - Cursor.PositionHierarchy.FindGroup, Cursor.PositionHierarchy.FindItem, Cursor.PositionHierarchy.FindGroupMut, Cursor.PositionHierarchy.FindItemMut, Cursor.PositionHierarchy.CursorDown, Cursor.PositionHierarchy.HierarchyDown and Cursor.PositionHierarchy.HierarchyDownNoOpen require a non-empty path. The source indexes `indexes[0]` and panics on an empty one.
  - Cursor.PositionHierarchy.GroupDown requires `GroupDownSafe`. `groups.len() - 1` and `group_count - 1` underflow on an empty forest or an empty level.
  - Keys.MoveGroupUpKey requires that `move_group_up` does not panic. At the roots it swaps inside the selected root's subgroups with the root index, which can be out of range. `Handlers.MoveGroupUpAtRootPanics` exhibits such a state.
  - The other `Keys` methods require a non-empty path for the same reason as above.
- Traversal.TraverseFollowsOrder holds for pre-handlers whose descend decision depends only on the group and the depth, not on the accumulator. Both source callers meet this: `todo_count` always descends, and `format_hierarchy` descends iff the group is open. A caller that decides from the accumulator is not covered.
- Traversal.TraverseDescendFollowsOrder carries the same restriction on the descend decision, for the same reason.
- Traversal.TraverseEachFollowsOrder carries the same restriction on the descend decision, for the same reason.
- Config.WelcomeForest and Config.TodoConfig.Default give the four welcome todos one shared `created` timestamp, passed in as a parameter. The source reads `now_local()` for each todo and falls back to `now_utc()` (src/todo_config.rs:314-355), so its timestamps can differ by the time between reads.
- Traversal.TraverseMut and Traversal.TraverseEachMut require a pre-handler that returns the group with its subgroup list unchanged (`KeepsSubgroups`); the handler may change any other field. That is what lets the rebuilt tree be defined by recursion. Both handlers the source passes to `traverse_mut`, the archive sweep and `clean`, meet it. A pre-handler that reorders, adds, removes or edits subgroups is not covered.

## Findings

The handler models follow the code as written. The corrected definitions stand beside them, each with the property the code evidently intends proved about it.

| source | as written | input that shows it | evidently intended | confidence | as-written member | corrected member |
|---|---|---|---|---|---|---|
| src/navigation.rs:270-285 | at the roots, `cursor_down` calls `group_down` once in the special case and again at the end | three closed roots, cursor `[0]`: the cursor lands on `[2]` | move to the next root, one row down | not executed | `Navigation.CursorDownSkipsRoot` | `Navigation.CursorDownFixedNextRow` |
| src/main.rs:652-657 | for a root, `find_group_mut` returns the selected root itself, so `move_group_down` and `move_group_up` swap that root's subgroups using the root's index | root `r` with subgroups `[x, y]`, cursor `[0]`: the subgroups become `[y, x]` and the cursor is `[1]`, past the last root | swap the selected root with its neighbour in the forest, keeping the same root selected | not executed | `Handlers.MoveGroupDownAtRoot` | `Handlers.MoveGroupFixedFollows` |
| src/main.rs:380-400 | the archive sweep removes completed todos but never re-clamps the cursor | a group with one completed todo done at time 0, archive time 1, clock 2, cursor on that todo: the cursor resolves to `OutOfBounds` | keep the cursor on a valid item after the sweep | not executed | `Handlers.SweepStrandsCursor` | `Handlers.SweepFixedKeepsCursor` |
| src/main.rs:576-579 | `prompt_date_in_place(..).unwrap_or(due)` turns the "n" (clear) answer back into the old date | a todo due at time 5, answered "n": it is still due at 5 | "n" removes the due date | not executed | `Dates.DueDateNeverCleared` | `Dates.FixedDiffersOnlyOnClear` |
