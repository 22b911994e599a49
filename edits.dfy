/** The in-place edits that the key handlers of main.rs make to one group:
    moving todos between `todos`, `completed` and `todo_archive`, hiding
    subgroups, swapping neighbours, appending and renaming. Each is a
    function from the old group, and the cursor's last index `k` read
    against that group's children, to the new group. */
module Edits {
  import opened Tree
  import opened Rendering
  import opened Dates

  /** `Vec::remove`: the element at `i` is taken out and the rest close up in order. */
  function Remove<T>(s: seq<T>, i: nat): (r: seq<T>)
    requires i < |s|
    ensures |r| == |s| - 1
    ensures forall j :: 0 <= j < i ==> r[j] == s[j]
    ensures forall j :: i <= j < |r| ==> r[j] == s[j + 1]
    ensures multiset(r) + multiset{s[i]} == multiset(s)
  {
    assert s == s[..i] + [s[i]] + s[i + 1..];
    s[..i] + s[i + 1..]
  }

  /** `Vec::swap`. */
  function Swap<T>(s: seq<T>, i: nat, j: nat): (r: seq<T>)
    requires i < |s| && j < |s|
    ensures |r| == |s| && r[i] == s[j] && r[j] == s[i]
    ensures forall k :: 0 <= k < |s| && k != i && k != j ==> r[k] == s[k]
    ensures multiset(r) == multiset(s)
  {
    s[i := s[j]][j := s[i]]
  }

  lemma SwapSymmetric<T>(s: seq<T>, i: nat, j: nat)
    requires i < |s| && j < |s|
    ensures Swap(s, i, j) == Swap(s, j, i)
  {
    var a, b := Swap(s, i, j), Swap(s, j, i);
    assert forall m :: 0 <= m < |s| ==> a[m] == b[m];
  }

  lemma SwapTwice<T>(s: seq<T>, i: nat, j: nat)
    requires i < |s| && j < |s|
    ensures Swap(Swap(s, i, j), j, i) == s
  {
    var a := Swap(Swap(s, i, j), j, i);
    assert forall m :: 0 <= m < |s| ==> a[m] == s[m];
  }

  /** 1 for a todo that is not done, 0 otherwise: its share of `todo_count`. */
  function Act(t: Todo): nat {
    if t.doneTime.None? then 1 else 0
  }

  lemma {:induction false} ActiveInAppend(a: seq<Todo>, b: seq<Todo>)
    ensures ActiveIn(a + b) == ActiveIn(a) + ActiveIn(b)
  {
    if a != [] {
      var ab := a + b;
      assert ab[0] == a[0] && ab[1..] == a[1..] + b;
      ActiveInAppend(a[1..], b);
      assert ActiveIn(ab) == Act(a[0]) + ActiveIn(a[1..] + b);
      assert ActiveIn(a) == Act(a[0]) + ActiveIn(a[1..]);
    } else {
      assert a + b == b;
    }
  }

  lemma {:induction false} ActiveInSplit(a: seq<Todo>, x: Todo, b: seq<Todo>)
    ensures ActiveIn(a + [x] + b) == ActiveIn(a + b) + Act(x)
  {
    var s := a + [x] + b;
    if a == [] {
      assert s == [x] + b && s[0] == x && s[1..] == b;
      assert a + b == b;
    } else {
      ActiveInSplit(a[1..], x, b);
      assert s[0] == a[0] && s[1..] == a[1..] + [x] + b;
      var t := a + b;
      assert t[0] == a[0] && t[1..] == a[1..] + b;
    }
  }

  lemma ActiveInRemove(s: seq<Todo>, i: nat)
    requires i < |s|
    ensures ActiveIn(Remove(s, i)) + Act(s[i]) == ActiveIn(s)
  {
    assert s[..i] + s[i..] == s;
    ActiveInAppend(s[..i], s[i..]);
    ActiveInAppend(s[..i], s[i + 1..]);
    assert s[i..][0] == s[i] && s[i..][1..] == s[i + 1..];
  }

  lemma {:induction false} ActiveInSnoc(s: seq<Todo>, t: Todo)
    ensures ActiveIn(s + [t]) == ActiveIn(s) + Act(t)
  {
    if s == [] {
      assert [t][1..] == [];
    } else {
      assert (s + [t])[1..] == s[1..] + [t];
      ActiveInSnoc(s[1..], t);
    }
  }

  lemma {:induction false} ActiveEachRemove(s: seq<Group>, i: nat)
    requires i < |s|
    ensures ActiveEach(Remove(s, i)) + ActiveCount(s[i]) == ActiveEach(s)
  {
    var r := Remove(s, i);
    assert ActiveEach(s) == ActiveCount(s[0]) + ActiveEach(s[1..]);
    if i == 0 {
      assert r == s[1..];
    } else {
      ActiveEachRemove(s[1..], i - 1);
      assert r[0] == s[0] && r[1..] == Remove(s[1..], i - 1);
      assert ActiveEach(r) == ActiveCount(r[0]) + ActiveEach(r[1..]);
    }
  }

  lemma {:induction false} ActiveEachSnoc(s: seq<Group>, g: Group)
    ensures ActiveEach(s + [g]) == ActiveEach(s) + ActiveCount(g)
  {
    if s == [] {
      assert [g][1..] == [];
    } else {
      assert (s + [g])[1..] == s[1..] + [g];
      ActiveEachSnoc(s[1..], g);
    }
  }

  lemma {:induction false} ActiveEachSwap(s: seq<Group>, i: nat)
    requires i + 1 < |s|
    ensures ActiveEach(Swap(s, i, i + 1)) == ActiveEach(s)
  {
    if i > 0 {
      ActiveEachSwap(s[1..], i - 1);
      assert Swap(s, i, i + 1)[1..] == Swap(s[1..], i - 1, i);
    } else {
      assert Swap(s, 0, 1)[1..][1..] == s[2..] == s[1..][1..];
    }
  }

  /** The group's own todo lists keep to their meaning: every todo in
      `todos` has no done time and every todo in `completed` has one. */
  predicate Tidy(g: Group) {
    && (forall j :: 0 <= j < |g.todos| ==> g.todos[j].doneTime.None?)
    && (forall j :: 0 <= j < |g.completed| ==> g.completed[j].doneTime.Some?)
  }

  /** Everything but the todo lists is as it was. */
  predicate SameOutsideTodos(a: Group, b: Group) {
    && a.hidden == b.hidden && a.name == b.name && a.open == b.open
    && a.subgroups == b.subgroups && a.subgroupArchive == b.subgroupArchive
  }

  /** `r` is `s` with the entry at `i` taken out and the others kept in order. */
  predicate RemovedAt(s: seq<Todo>, r: seq<Todo>, i: nat) {
    && |r| + 1 == |s|
    && (forall j :: 0 <= j < i && j < |r| ==> r[j] == s[j])
    && (forall j :: i <= j < |r| ==> r[j] == s[j + 1])
  }

  /** `r`'s children are `g`'s with the one at `k` taken out. */
  predicate ChildRemoved(g: Group, r: Group, k: nat) {
    && Len(r) + 1 == Len(g)
    && (forall j :: 0 <= j < k ==> Child(r, j) == Child(g, j))
    && (forall j :: k <= j < Len(g) ==> Child(r, j) == Child(g, j + 1))
  }

  lemma RemoveTodoChild(g: Group, r: Group, i: nat)
    requires i < |g.todos|
    requires r.subgroups == g.subgroups && r.todos == Remove(g.todos, i) && r.completed == g.completed
    ensures ChildRemoved(g, r, |g.subgroups| + i)
  {
  }

  lemma RemoveCompletedChild(g: Group, r: Group, i: nat)
    requires i < |g.completed|
    requires r.subgroups == g.subgroups && r.todos == g.todos && r.completed == Remove(g.completed, i)
    ensures ChildRemoved(g, r, |g.subgroups| + |g.todos| + i)
  {
  }

  lemma RemoveSubgroupChild(g: Group, r: Group, i: nat)
    requires i < |g.subgroups|
    requires r.subgroups == Remove(g.subgroups, i) && r.todos == g.todos && r.completed == g.completed
    ensures ChildRemoved(g, r, i)
  {
  }

  /** The selected todo of `g` (k past the subgroups). */
  function TodoAt(g: Group, k: nat): (t: Todo)
    requires |g.subgroups| <= k < Len(g)
    ensures Child(g, k) == Some(TodoItem(t))
  {
    Child(g, k).value.todo
  }

  // ---------------------------------------------------------------------
  // Toggling a todo: the todo branch of `activate_item` and the toggle key.

  /** An active todo is stamped with the clock reading `now` (None when
      the local time could not be read) and appended to `completed`; a
      completed one loses its done time and is appended to `todos`. */
  function ToggleIn(g: Group, k: nat, now: Option<int>): (r: Group)
    requires |g.subgroups| <= k
    ensures SameOutsideTodos(g, r) && r.todoArchive == g.todoArchive
    ensures Len(r) == Len(g)
    ensures k < |g.subgroups| + |g.todos| ==>
              r.completed == g.completed + [TodoAt(g, k).(doneTime := now)]
              && multiset(r.todos) + multiset{TodoAt(g, k)} == multiset(g.todos)
              && RemovedAt(g.todos, r.todos, k - |g.subgroups|)
    ensures |g.subgroups| + |g.todos| <= k < Len(g) ==>
              r.todos == g.todos + [TodoAt(g, k).(doneTime := None)]
              && multiset(r.completed) + multiset{TodoAt(g, k)} == multiset(g.completed)
              && RemovedAt(g.completed, r.completed, k - |g.subgroups| - |g.todos|)
    ensures k >= Len(g) ==> r == g
  {
    var sg := |g.subgroups|;
    if k < sg + |g.todos| then
      var i := k - sg;
      var t := g.todos[i];
      assert t == TodoAt(g, k);
      g.(todos := Remove(g.todos, i), completed := g.completed + [t.(doneTime := now)])
    else if k < Len(g) then
      var i := k - sg - |g.todos|;
      var t := g.completed[i];
      assert t == TodoAt(g, k);
      g.(completed := Remove(g.completed, i), todos := g.todos + [t.(doneTime := None)])
    else g
  }

  /** Toggling changes the group's not-done count by the toggled todo's
      change of state and nothing else. */
  lemma ToggleActiveCount(g: Group, k: nat, now: Option<int>)
    requires |g.subgroups| <= k < Len(g)
    ensures var t := TodoAt(g, k);
            ActiveCount(ToggleIn(g, k, now)) + Act(t)
            == ActiveCount(g) + (if k < |g.subgroups| + |g.todos| then Act(t.(doneTime := now)) else 1)
  {
    var sg := |g.subgroups|;
    var r := ToggleIn(g, k, now);
    if k < sg + |g.todos| {
      ActiveInRemove(g.todos, k - sg);
      ActiveInSnoc(g.completed, TodoAt(g, k).(doneTime := now));
    } else {
      var i := k - sg - |g.todos|;
      ActiveInRemove(g.completed, i);
      ActiveInSnoc(g.todos, TodoAt(g, k).(doneTime := None));
    }
  }

  /** With the clock readable, toggling keeps the todo lists tidy. */
  lemma ToggleKeepsTidy(g: Group, k: nat, now: Option<int>)
    requires |g.subgroups| <= k < Len(g) && Tidy(g) && now.Some?
    ensures Tidy(ToggleIn(g, k, now))
  {
    var sg := |g.subgroups|;
    if k < sg + |g.todos| {
      var i := k - sg;
      var todos, completed := Remove(g.todos, i), g.completed + [g.todos[i].(doneTime := now)];
      assert ToggleIn(g, k, now) == g.(todos := todos, completed := completed);
      forall j | 0 <= j < |todos| ensures todos[j].doneTime.None? {
        assert todos[j] == g.todos[if j < i then j else j + 1];
      }
      forall j | 0 <= j < |completed| ensures completed[j].doneTime.Some? {
        if j < |g.completed| {
          assert completed[j] == g.completed[j];
        }
      }
    } else {
      var i := k - sg - |g.todos|;
      var todos, completed := g.todos + [g.completed[i].(doneTime := None)], Remove(g.completed, i);
      assert ToggleIn(g, k, now) == g.(todos := todos, completed := completed);
      forall j | 0 <= j < |completed| ensures completed[j].doneTime.Some? {
        assert completed[j] == g.completed[if j < i then j else j + 1];
      }
      forall j | 0 <= j < |todos| ensures todos[j].doneTime.None? {
        if j < |g.todos| {
          assert todos[j] == g.todos[j];
        }
      }
    }
  }

  /** With the clock readable, toggling moves the group's `todo_count` by
      exactly one: down when a todo is done, up when it is reopened. */
  lemma ToggleCountsOne(g: Group, k: nat, now: Option<int>)
    requires |g.subgroups| <= k < Len(g) && Tidy(g) && now.Some?
    ensures ActiveCount(ToggleIn(g, k, now)) + 1 == ActiveCount(g) <==> k < |g.subgroups| + |g.todos|
    ensures ActiveCount(ToggleIn(g, k, now)) == ActiveCount(g) + 1 <==> |g.subgroups| + |g.todos| <= k
  {
    ToggleActiveCount(g, k, now);
  }

  /** When the clock cannot be read, a done todo lands in `completed`
      without a done time: it is still counted as not done. */
  lemma ToggleWithoutClock(g: Group, k: nat)
    requires |g.subgroups| <= k < |g.subgroups| + |g.todos| && Tidy(g)
    ensures !Tidy(ToggleIn(g, k, None))
    ensures ActiveCount(ToggleIn(g, k, None)) == ActiveCount(g)
  {
    ToggleActiveCount(g, k, None);
    var r := ToggleIn(g, k, None);
    assert r.completed[|r.completed| - 1].doneTime.None?;
  }

  // ---------------------------------------------------------------------
  // Archiving a todo and hiding a subgroup.

  /** The selected todo (active or completed) leaves its list and is
      appended to `todo_archive`. */
  function ArchiveIn(g: Group, k: nat): (r: Group)
    requires |g.subgroups| <= k < Len(g)
    ensures SameOutsideTodos(g, r)
    ensures r.todoArchive == g.todoArchive + [TodoAt(g, k)]
    ensures multiset(r.todos + r.completed) + multiset{TodoAt(g, k)} == multiset(g.todos + g.completed)
    ensures ChildRemoved(g, r, k)
  {
    var sg := |g.subgroups|;
    var t := TodoAt(g, k);
    if k < sg + |g.todos| then
      var r := g.(todos := Remove(g.todos, k - sg), todoArchive := g.todoArchive + [t]);
      RemoveTodoChild(g, r, k - sg);
      assert multiset(r.todos + r.completed) == multiset(r.todos) + multiset(g.completed);
      r
    else
      var r := g.(completed := Remove(g.completed, k - sg - |g.todos|), todoArchive := g.todoArchive + [t]);
      RemoveCompletedChild(g, r, k - sg - |g.todos|);
      assert multiset(r.todos + r.completed) == multiset(g.todos) + multiset(r.completed);
      r
  }

  /** Archiving takes the todo's share out of the count. */
  lemma ArchiveActiveCount(g: Group, k: nat)
    requires |g.subgroups| <= k < Len(g)
    ensures ActiveCount(ArchiveIn(g, k)) + Act(TodoAt(g, k)) == ActiveCount(g)
  {
    var sg := |g.subgroups|;
    if k < sg + |g.todos| {
      ActiveInRemove(g.todos, k - sg);
    } else {
      ActiveInRemove(g.completed, k - sg - |g.todos|);
    }
  }

  lemma ArchiveKeepsTidy(g: Group, k: nat)
    requires |g.subgroups| <= k < Len(g) && Tidy(g)
    ensures Tidy(ArchiveIn(g, k))
  {
    var sg := |g.subgroups|;
    if k < sg + |g.todos| {
      RemoveKeepsUndone(g.todos, k - sg);
    } else {
      RemoveKeepsDone(g.completed, k - sg - |g.todos|);
    }
  }

  lemma RemoveKeepsUndone(s: seq<Todo>, i: nat)
    requires i < |s| && forall j :: 0 <= j < |s| ==> s[j].doneTime.None?
    ensures forall j :: 0 <= j < |Remove(s, i)| ==> Remove(s, i)[j].doneTime.None?
  {
  }

  lemma RemoveKeepsDone(s: seq<Todo>, i: nat)
    requires i < |s| && forall j :: 0 <= j < |s| ==> s[j].doneTime.Some?
    ensures forall j :: 0 <= j < |Remove(s, i)| ==> Remove(s, i)[j].doneTime.Some?
  {
  }

  /** The selected subgroup leaves `subgroups` and is appended to `subgroup_archive`. */
  function HideIn(g: Group, k: nat): (r: Group)
    requires k < |g.subgroups|
    ensures r.todos == g.todos && r.completed == g.completed && r.todoArchive == g.todoArchive
    ensures r.name == g.name && r.open == g.open && r.hidden == g.hidden
    ensures r.subgroupArchive == g.subgroupArchive + [g.subgroups[k]]
    ensures multiset(r.subgroups) + multiset{g.subgroups[k]} == multiset(g.subgroups)
    ensures ChildRemoved(g, r, k)
  {
    var r := g.(subgroups := Remove(g.subgroups, k), subgroupArchive := g.subgroupArchive + [g.subgroups[k]]);
    RemoveSubgroupChild(g, r, k);
    r
  }

  /** The hidden subgroup's not-done todos drop out of the count. */
  lemma HideActiveCount(g: Group, k: nat)
    requires k < |g.subgroups|
    ensures ActiveCount(HideIn(g, k)) + ActiveCount(g.subgroups[k]) == ActiveCount(g)
  {
    ActiveEachRemove(g.subgroups, k);
  }

  /** The cursor repair after a child was removed from the group the last
      index is read against (`new_len` children remain): an index that fell
      off the end steps back, and when there is nothing to step back to the
      cursor climbs to the group itself. */
  function ClampAfterRemoval(p: seq<nat>, newLen: nat): (r: seq<nat>)
    requires |p| > 1 && p[|p| - 1] <= newLen
    ensures |r| == |p| ==> r[..|r| - 1] == p[..|p| - 1] && r[|r| - 1] < newLen
    ensures |r| != |p| <==> newLen == 0
    ensures |r| != |p| ==> r == p[..|p| - 1]
    ensures p[|p| - 1] < newLen ==> r == p
  {
    var k := p[|p| - 1];
    if k >= newLen then
      if k > 0 then p[|p| - 1 := k - 1]
      else p[..|p| - 1]
    else p
  }

  // ---------------------------------------------------------------------
  // Swapping neighbours: the move-group and move-todo keys.

  /** Predicate: `r` shows `g`'s children with those at `i` and `i + 1` exchanged. */
  predicate NeighboursSwapped(g: Group, r: Group, i: nat) {
    && Len(r) == Len(g) && i + 1 < Len(g)
    && Child(r, i) == Child(g, i + 1) && Child(r, i + 1) == Child(g, i)
    && (forall j :: 0 <= j < Len(g) && j != i && j != i + 1 ==> Child(r, j) == Child(g, j))
  }

  lemma SwapTodosChild(g: Group, r: Group, k: nat)
    requires |g.subgroups| <= k && k + 1 < |g.subgroups| + |g.todos|
    requires r.subgroups == g.subgroups && r.completed == g.completed
    requires r.todos == Swap(g.todos, k - |g.subgroups|, k + 1 - |g.subgroups|)
    ensures NeighboursSwapped(g, r, k)
  {
  }

  lemma SwapSubgroupsChild(g: Group, r: Group, i: nat)
    requires i + 1 < |g.subgroups|
    requires r.subgroups == Swap(g.subgroups, i, i + 1) && r.todos == g.todos && r.completed == g.completed
    ensures NeighboursSwapped(g, r, i)
  {
  }

  lemma SwapTodosChildUp(g: Group, r: Group, k: nat)
    requires |g.subgroups| < k < |g.subgroups| + |g.todos|
    requires r.subgroups == g.subgroups && r.completed == g.completed
    requires r.todos == Swap(g.todos, k - |g.subgroups|, k - 1 - |g.subgroups|)
    ensures NeighboursSwapped(g, r, k - 1)
  {
    var j := k - 1;
    SwapSymmetric(g.todos, k - |g.subgroups|, j - |g.subgroups|);
    assert j + 1 - |g.subgroups| == k - |g.subgroups|;
    SwapTodosChild(g, r, j);
  }

  lemma SwapSubgroupsChildUp(g: Group, r: Group, k: nat)
    requires 0 < k < |g.subgroups|
    requires r.subgroups == Swap(g.subgroups, k, k - 1) && r.todos == g.todos && r.completed == g.completed
    ensures NeighboursSwapped(g, r, k - 1)
  {
    SwapSymmetric(g.subgroups, k, k - 1);
    SwapSubgroupsChild(g, r, k - 1);
  }

  /** `move_todo_down`: an active todo that has an active todo below it
      changes places with it and the cursor follows it. */
  function MoveTodoDownIn(g: Group, k: nat): (r: (Group, nat))
    ensures SameOutsideTodos(g, r.0) && r.0.completed == g.completed && r.0.todoArchive == g.todoArchive
    ensures multiset(r.0.todos) == multiset(g.todos)
    ensures r.1 == k || r.1 == k + 1
    ensures r.1 == k + 1 <==> |g.subgroups| <= k && k + 1 < |g.subgroups| + |g.todos|
    ensures r.1 == k ==> r.0 == g
    ensures r.1 == k + 1 ==> NeighboursSwapped(g, r.0, k)
  {
    var sg := |g.subgroups|;
    if k + 1 < sg + |g.todos| && k >= sg then
      var r := g.(todos := Swap(g.todos, k - sg, k + 1 - sg));
      SwapTodosChild(g, r, k);
      (r, k + 1)
    else (g, k)
  }

  /** `move_todo_up`: the mirror image of `MoveTodoDownIn`. */
  function MoveTodoUpIn(g: Group, k: nat): (r: (Group, nat))
    ensures SameOutsideTodos(g, r.0) && r.0.completed == g.completed && r.0.todoArchive == g.todoArchive
    ensures multiset(r.0.todos) == multiset(g.todos)
    ensures r.1 == k || r.1 + 1 == k
    ensures r.1 + 1 == k <==> |g.subgroups| < k < |g.subgroups| + |g.todos|
    ensures r.1 == k ==> r.0 == g
    ensures r.1 + 1 == k ==> NeighboursSwapped(g, r.0, r.1)
  {
    var sg := |g.subgroups|;
    if k > sg && k < sg + |g.todos| then
      var r := g.(todos := Swap(g.todos, k - sg, k - 1 - sg));
      SwapTodosChildUp(g, r, k);
      (r, k - 1)
    else (g, k)
  }

  /** `move_group_down`: a subgroup that has a subgroup below it changes
      places with it and the cursor follows it. */
  function MoveGroupDownIn(g: Group, k: nat): (r: (Group, nat))
    ensures r.0.todos == g.todos && r.0.completed == g.completed && r.0.todoArchive == g.todoArchive
    ensures r.0.subgroupArchive == g.subgroupArchive && r.0.name == g.name && r.0.open == g.open
    ensures r.0.hidden == g.hidden
    ensures multiset(r.0.subgroups) == multiset(g.subgroups)
    ensures r.1 == k || r.1 == k + 1
    ensures r.1 == k + 1 <==> k + 1 < |g.subgroups|
    ensures r.1 == k ==> r.0 == g
    ensures r.1 == k + 1 ==> NeighboursSwapped(g, r.0, k)
  {
    if k + 1 < |g.subgroups| then
      var r := g.(subgroups := Swap(g.subgroups, k, k + 1));
      SwapSubgroupsChild(g, r, k);
      (r, k + 1)
    else (g, k)
  }

  /** `move_group_up`. The source swaps without checking `k` against the
      subgroup list, which panics when `k` is past it; that cannot be
      reached while `k` selects a subgroup. */
  function MoveGroupUpIn(g: Group, k: nat): (r: (Group, nat))
    requires k == 0 || k < |g.subgroups|
    ensures r.0.todos == g.todos && r.0.completed == g.completed && r.0.todoArchive == g.todoArchive
    ensures r.0.subgroupArchive == g.subgroupArchive && r.0.name == g.name && r.0.open == g.open
    ensures r.0.hidden == g.hidden
    ensures multiset(r.0.subgroups) == multiset(g.subgroups)
    ensures r.1 == k || r.1 + 1 == k
    ensures r.1 + 1 == k <==> k > 0
    ensures r.1 == k ==> r.0 == g
    ensures r.1 + 1 == k ==> NeighboursSwapped(g, r.0, r.1)
  {
    if k > 0 then
      var r := g.(subgroups := Swap(g.subgroups, k, k - 1));
      SwapSubgroupsChildUp(g, r, k);
      (r, k - 1)
    else (g, k)
  }

  /** Moving a todo down and then up again restores the group and the cursor. */
  lemma MoveTodoDownThenUp(g: Group, k: nat)
    requires MoveTodoDownIn(g, k).1 == k + 1
    ensures MoveTodoUpIn(MoveTodoDownIn(g, k).0, k + 1) == (g, k)
  {
    var i := k - |g.subgroups|;
    var r := g.(todos := Swap(g.todos, i, i + 1));
    assert MoveTodoDownIn(g, k) == (r, k + 1);
    SwapTwice(g.todos, i, i + 1);
    assert r.(todos := Swap(r.todos, i + 1, i)) == g;
    assert MoveTodoUpIn(r, k + 1) == (r.(todos := Swap(r.todos, i + 1, i)), k);
  }

  /** Moving a subgroup down and then up again restores the group and the cursor. */
  lemma MoveGroupDownThenUp(g: Group, k: nat)
    requires MoveGroupDownIn(g, k).1 == k + 1
    ensures MoveGroupUpIn(MoveGroupDownIn(g, k).0, k + 1) == (g, k)
  {
    var r := g.(subgroups := Swap(g.subgroups, k, k + 1));
    assert MoveGroupDownIn(g, k) == (r, k + 1);
    SwapTwice(g.subgroups, k, k + 1);
    assert r.(subgroups := Swap(r.subgroups, k + 1, k)) == g;
    assert MoveGroupUpIn(r, k + 1) == (r.(subgroups := Swap(r.subgroups, k + 1, k)), k);
  }

  /** Reordering subgroups leaves the group's not-done count alone. */
  lemma MoveGroupKeepsCount(g: Group, k: nat)
    ensures ActiveCount(MoveGroupDownIn(g, k).0) == ActiveCount(g)
  {
    if k + 1 < |g.subgroups| {
      ActiveEachSwap(g.subgroups, k);
    }
  }

  // ---------------------------------------------------------------------
  // Appending, renaming, opening.

  /** `add_group`: a new, open, empty subgroup after the existing ones. The
      todos below it each move one row down in the child order. */
  function AddSubgroupIn(g: Group, name: string): (r: Group)
    ensures r.todos == g.todos && r.completed == g.completed
    ensures r.todoArchive == g.todoArchive && r.subgroupArchive == g.subgroupArchive
    ensures r.name == g.name && r.open == g.open && r.hidden == g.hidden
    ensures Len(r) == Len(g) + 1
    ensures Child(r, |g.subgroups|) == Some(GroupItem(NewGroup(name, true)))
    ensures forall j :: 0 <= j < |g.subgroups| ==> Child(r, j) == Child(g, j)
    ensures forall j :: |g.subgroups| <= j <= Len(g) ==> Child(r, j + 1) == Child(g, j)
    ensures ActiveCount(r) == ActiveCount(g)
  {
    var r := g.(subgroups := g.subgroups + [NewGroup(name, true)]);
    ActiveEachSnoc(g.subgroups, NewGroup(name, true));
    r
  }

  /** `add_todo`: the todo is appended to the active todos; the completed
      todos below it each move one row down. */
  function AddTodoIn(g: Group, t: Todo): (r: Group)
    ensures SameOutsideTodos(g, r) && r.todoArchive == g.todoArchive && r.completed == g.completed
    ensures |r.todos| == |g.todos| + 1 && r.todos[|g.todos|] == t
    ensures Len(r) == Len(g) + 1
    ensures Child(r, |g.subgroups| + |g.todos|) == Some(TodoItem(t))
    ensures forall j :: 0 <= j < |g.subgroups| + |g.todos| ==> Child(r, j) == Child(g, j)
    ensures forall j :: |g.subgroups| + |g.todos| <= j <= Len(g) ==> Child(r, j + 1) == Child(g, j)
    ensures ActiveCount(r) == ActiveCount(g) + Act(t)
  {
    ActiveInSnoc(g.todos, t);
    g.(todos := g.todos + [t])
  }

  /** The todo `add_todo` creates: not done, with the prompted name and due date. */
  function NewTodo(name: string, due: Option<int>, created: int): (t: Todo)
    ensures Act(t) == 1
  {
    Todo(name, None, due, created)
  }

  /** The rename rule of `edit_group` and `edit_todo`: an empty answer keeps the old name. */
  function Rename(current: string, answer: string): (r: string)
    ensures r == answer || r == current
    ensures r == "" ==> current == "" && answer == ""
    ensures answer != "" ==> r == answer
  {
    if answer != "" then answer else current
  }

  /** `toggle_group` and the group branch of `activate_item`. */
  function ToggleOpen(g: Group): (r: Group)
    ensures r.open != g.open
    ensures SameContent(g, r)
  {
    FlipKeepsContent(g, !g.open);
    g.(open := !g.open)
  }

  /** Toggling twice restores the group. */
  lemma ToggleOpenTwice(g: Group)
    ensures ToggleOpen(ToggleOpen(g)) == g
  {
  }
  // ---------------------------------------------------------------------
  // Editing a todo in place: `edit_todo`.

  /** The todo after `edit_todo`'s two dialogues: the rename rule for the
      name, the written due-date rule for the date; when it was done and
      when it was created stay. */
  function EditedTodo(t: Todo, nameAnswer: string, dueAnswer: DateAnswer): (r: Todo)
    ensures r.doneTime == t.doneTime && r.created == t.created
    ensures nameAnswer != "" ==> r.name == nameAnswer
    ensures nameAnswer == "" && !dueAnswer.Set? && !dueAnswer.Clear? ==> r == t
  {
    t.(name := Rename(t.name, nameAnswer), due := EditedDue(t.due, dueAnswer))
  }

  /** Writes `t` over the selected todo, in whichever list it is; every
      other child stays where it was. */
  function SetTodoIn(g: Group, k: nat, t: Todo): (r: Group)
    requires |g.subgroups| <= k < Len(g)
    ensures SameOutsideTodos(g, r) && r.todoArchive == g.todoArchive
    ensures |r.todos| == |g.todos| && |r.completed| == |g.completed|
    ensures Child(r, k) == Some(TodoItem(t))
    ensures forall j :: 0 <= j < Len(g) && j != k ==> Child(r, j) == Child(g, j)
  {
    var sg := |g.subgroups|;
    if k < sg + |g.todos| then g.(todos := g.todos[k - sg := t])
    else g.(completed := g.completed[k - sg - |g.todos| := t])
  }

  /** Writing back the todo that is there changes nothing. */
  lemma SetTodoSame(g: Group, k: nat)
    requires |g.subgroups| <= k < Len(g)
    ensures SetTodoIn(g, k, TodoAt(g, k)) == g
  {
    var sg := |g.subgroups|;
    if k < sg + |g.todos| {
      assert g.todos[k - sg := TodoAt(g, k)] == g.todos;
    } else {
      assert g.completed[k - sg - |g.todos| := TodoAt(g, k)] == g.completed;
    }
  }

  /** An edited todo keeps its done time, so the group stays tidy. */
  lemma EditKeepsTidy(g: Group, k: nat, nameAnswer: string, dueAnswer: DateAnswer)
    requires |g.subgroups| <= k < Len(g) && Tidy(g)
    ensures Tidy(SetTodoIn(g, k, EditedTodo(TodoAt(g, k), nameAnswer, dueAnswer)))
  {
  }
}
