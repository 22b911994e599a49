/** The outline tree of todo_config.rs: todos, recursive groups and the
    per-group summaries used for cursor bounds and rendering. */
module Tree {

  datatype Option<T> = None | Some(value: T)

  /** A todo item. Timestamps are integers in one common time unit. */
  datatype Todo = Todo(name: string, doneTime: Option<int>, due: Option<int>, created: int)

  /** A group. Its visible children, in display order, are `subgroups`,
      then `todos`, then `completed`; the two archive lists are not shown. */
  datatype Group = Group(
    hidden: bool,
    name: string,
    open: bool,
    todos: seq<Todo>,
    completed: seq<Todo>,
    todoArchive: seq<Todo>,
    subgroups: seq<Group>,
    subgroupArchive: seq<Group>)

  /** A group with the given name and no children or archives. */
  function NewGroup(name: string, open: bool): Group {
    Group(false, name, open, [], [], [], [], [])
  }

  /** One visible child of a group. */
  datatype Item = GroupItem(group: Group) | TodoItem(todo: Todo)

  /** The number of visible children of `g` (its `len`). */
  function Len(g: Group): nat {
    |g.subgroups| + |g.todos| + |g.completed|
  }

  /** `is_empty`: no subgroups, no todos and no completed todos. */
  function IsEmpty(g: Group): (r: bool)
    ensures r <==> Len(g) == 0
    ensures r <==> Children(g) == []
  {
    g.subgroups == [] && g.todos == [] && g.completed == []
  }

  /** Reference definition of the three-part child order. */
  function Children(g: Group): (r: seq<Item>)
    ensures |r| == Len(g)
  {
    seq(|g.subgroups|, i requires 0 <= i < |g.subgroups| => GroupItem(g.subgroups[i]))
    + seq(|g.todos|, i requires 0 <= i < |g.todos| => TodoItem(g.todos[i]))
    + seq(|g.completed|, i requires 0 <= i < |g.completed| => TodoItem(g.completed[i]))
  }

  /** The child selected by a final path index `k`, read against the
      subgroups / todos / completed partition; None past the end. */
  function Child(g: Group, k: nat): (r: Option<Item>)
    ensures r.Some? <==> k < Len(g)
    ensures r.Some? ==> (r.value.GroupItem? <==> k < |g.subgroups|)
  {
    if k < |g.subgroups| then Some(GroupItem(g.subgroups[k]))
    else if k < |g.subgroups| + |g.todos| then Some(TodoItem(g.todos[k - |g.subgroups|]))
    else if k < Len(g) then Some(TodoItem(g.completed[k - |g.subgroups| - |g.todos|]))
    else None
  }

  /** `Child` reads the reference order: the children of a group are
      exactly the items `Child` yields for 0 .. Len - 1. */
  lemma ChildIsChildren(g: Group)
    ensures forall k :: 0 <= k < Len(g) ==> Child(g, k) == Some(Children(g)[k])
    ensures forall k :: Len(g) <= k ==> Child(g, k).None?
  {
  }

  const Digits := "0123456789"

  /** `num_to_str`: the digit glyph for counts below ten, '+' otherwise. */
  function NumToStr(n: nat): (r: char)
    ensures n < 10 ==> r == Digits[n]
    ensures n >= 10 ==> r == '+'
    ensures r in Digits + "+"
  {
    if n < 10 then ('0' as int + n) as char else '+'
  }
}
