/** The summaries of todo_config.rs built on the traversal: `todo_count`
    and the string `format_hierarchy`, with the rows it renders. */
module Rendering {
  import opened Tree
  import opened Traversal

  // ---------------------------------------------------------------------
  // todo_count

  function CountPre(g: Group, depth: nat, count: nat): (bool, nat) { (true, count) }

  function CountTodo(t: Todo, depth: nat, count: nat): nat {
    if t.doneTime.None? then count + 1 else count
  }

  function CountAfter(g: Group, depth: nat, count: nat): nat { count }

  /** `todo_count`: a traversal that always descends and counts todos without a done time. */
  function TodoCount(g: Group): nat {
    Traverse(g, 0, CountPre, CountTodo, CountAfter, 0)
  }

  /** The number of todos in `ts` without a done time. */
  function ActiveIn(ts: seq<Todo>): (r: nat)
    ensures r <= |ts|
  {
    if ts == [] then 0 else (if ts[0].doneTime.None? then 1 else 0) + ActiveIn(ts[1..])
  }

  /** Reference count: the not-done todos anywhere in the subtree, in
      `todos` or in `completed`; archives and `open` flags play no part. */
  function ActiveCount(g: Group): nat
    decreases g, 1
  {
    ActiveIn(g.todos) + ActiveIn(g.completed) + ActiveEach(g.subgroups)
  }

  function ActiveEach(gs: seq<Group>): nat
    decreases gs, 0
  {
    if gs == [] then 0 else ActiveCount(gs[0]) + ActiveEach(gs[1..])
  }

  lemma {:induction false} FoldCount(ts: seq<Todo>, count: nat, depth: nat)
    ensures FoldTodos(ts, count, CountTodo, depth) == count + ActiveIn(ts)
  {
    if ts != [] {
      FoldCount(ts[1..], CountTodo(ts[0], depth, count), depth);
    }
  }

  lemma {:induction false} TraverseCounts(g: Group, count: nat, depth: nat)
    ensures Traverse(g, count, CountPre, CountTodo, CountAfter, depth) == count + ActiveCount(g)
    decreases g, 1
  {
    TraverseEachCounts(g.subgroups, count, depth + 1);
    var c1 := TraverseEach(g.subgroups, count, CountPre, CountTodo, CountAfter, depth + 1);
    FoldCount(g.todos, c1, depth + 1);
    FoldCount(g.completed, c1 + ActiveIn(g.todos), depth + 1);
  }

  lemma {:induction false} TraverseEachCounts(gs: seq<Group>, count: nat, depth: nat)
    ensures TraverseEach(gs, count, CountPre, CountTodo, CountAfter, depth) == count + ActiveEach(gs)
    decreases gs, 0
  {
    if gs != [] {
      TraverseCounts(gs[0], count, depth);
      TraverseEachCounts(gs[1..], count + ActiveCount(gs[0]), depth);
    }
  }

  /** `todo_count` counts exactly the not-done todos of the whole subtree. */
  lemma TodoCountIsActiveCount(g: Group)
    ensures TodoCount(g) == ActiveCount(g)
  {
    TraverseCounts(g, 0, 0);
  }

  /** Two trees that differ at most in their `open` flags, at any depth. */
  predicate SameContent(a: Group, b: Group)
    decreases a
  {
    && a.hidden == b.hidden && a.name == b.name
    && a.todos == b.todos && a.completed == b.completed
    && a.todoArchive == b.todoArchive && a.subgroupArchive == b.subgroupArchive
    && |a.subgroups| == |b.subgroups|
    && forall i :: 0 <= i < |a.subgroups| ==> SameContent(a.subgroups[i], b.subgroups[i])
  }

  lemma {:induction false} ActiveCountIgnoresOpen(a: Group, b: Group)
    requires SameContent(a, b)
    ensures ActiveCount(a) == ActiveCount(b)
    decreases a, 1
  {
    ActiveEachIgnoresOpen(a.subgroups, b.subgroups);
  }

  lemma {:induction false} ActiveEachIgnoresOpen(as_: seq<Group>, bs: seq<Group>)
    requires |as_| == |bs|
    requires forall i :: 0 <= i < |as_| ==> SameContent(as_[i], bs[i])
    ensures ActiveEach(as_) == ActiveEach(bs)
    decreases as_, 0
  {
    if as_ != [] {
      ActiveCountIgnoresOpen(as_[0], bs[0]);
      ActiveEachIgnoresOpen(as_[1..], bs[1..]);
    }
  }

  /** `todo_count` does not depend on any `open` flag of the subtree. */
  lemma TodoCountIgnoresOpen(a: Group, b: Group)
    requires SameContent(a, b)
    ensures TodoCount(a) == TodoCount(b)
  {
    TodoCountIsActiveCount(a);
    TodoCountIsActiveCount(b);
    ActiveCountIgnoresOpen(a, b);
  }

  // ---------------------------------------------------------------------
  // format_hierarchy

  /** `"  ".repeat(depth)`. */
  function Indent(depth: nat): (r: string)
    ensures |r| == 2 * depth
    ensures forall i :: 0 <= i < |r| ==> r[i] == ' '
  {
    if depth == 0 then "" else "  " + Indent(depth - 1)
  }

  /** One rendered line: indentation, a bracketed marker, a space, the name, CR LF. */
  function Line(depth: nat, marker: char, name: string): string {
    Indent(depth) + "[" + [marker] + "] " + name + "\r\n"
  }

  /** The layout of a line: 2 * depth spaces, '[', the marker, ']', a
      space, the name, and the CR LF terminator. */
  lemma LineLayout(depth: nat, marker: char, name: string)
    ensures var r := Line(depth, marker, name);
      && |r| == 2 * depth + 4 + |name| + 2
      && (forall i :: 0 <= i < 2 * depth ==> r[i] == ' ')
      && r[2 * depth] == '[' && r[2 * depth + 1] == marker && r[2 * depth + 2] == ']' && r[2 * depth + 3] == ' '
      && r[2 * depth + 4 .. |r| - 2] == name
      && r[|r| - 2..] == "\r\n"
  {
  }

  /** An open group shows '*'; a closed one shows its not-done count glyph. */
  function GroupMarker(g: Group): char {
    if g.open then '*' else NumToStr(TodoCount(g))
  }

  /** A done todo shows '*', an active one a blank. */
  function TodoMarker(t: Todo): char {
    if t.doneTime.Some? then '*' else ' '
  }

  function FormatPre(g: Group, depth: nat, out: string): (bool, string) {
    (g.open, out + Line(depth, GroupMarker(g), g.name))
  }

  function FormatTodo(t: Todo, depth: nat, out: string): string {
    out + Line(depth, TodoMarker(t), t.name)
  }

  function FormatAfter(g: Group, depth: nat, out: string): string { out }

  /** The loop of `format_hierarchy`: each root group traversed at depth 1,
      descending only into open groups, appending to one output string. */
  function FormatFrom(groups: seq<Group>, out: string): string {
    if groups == [] then out
    else FormatFrom(groups[1..], Traverse(groups[0], out, FormatPre, FormatTodo, FormatAfter, 1))
  }

  /** `format_hierarchy` of the live forest. */
  function FormatHierarchy(groups: seq<Group>): string {
    FormatFrom(groups, "")
  }

  /** The traversal descends exactly into open groups. */
  function Opened(g: Group, depth: nat): bool { g.open }

  /** The visits that produce a line: every visit except leaving a group. */
  function Rows(es: seq<Visit>): seq<Visit>
  {
    if es == [] then [] else (if es[0].Leave? then [] else [es[0]]) + Rows(es[1..])
  }

  /** The rows of the forest, top to bottom, as drawn: collapsed groups hide their children. */
  function VisibleRows(groups: seq<Group>): seq<Visit> {
    Rows(OrderEach(groups, 1, Opened))
  }

  /** The line a row renders to. */
  function RenderRow(e: Visit): string {
    match e
    case Enter(g, d) => Line(d, GroupMarker(g), g.name)
    case Leaf(t, d) => Line(d, TodoMarker(t), t.name)
    case Leave(_, _) => ""
  }

  function RenderAll(rows: seq<Visit>): string {
    if rows == [] then "" else RenderRow(rows[0]) + RenderAll(rows[1..])
  }

  lemma {:induction false} RowsAppend(a: seq<Visit>, b: seq<Visit>)
    ensures Rows(a + b) == Rows(a) + Rows(b)
  {
    if a == [] {
      assert a + b == b;
    } else {
      assert (a + b)[1..] == a[1..] + b;
      RowsAppend(a[1..], b);
    }
  }

  lemma {:induction false} RenderAllAppend(a: seq<Visit>, b: seq<Visit>)
    ensures RenderAll(a + b) == RenderAll(a) + RenderAll(b)
  {
    if a == [] {
      assert a + b == b;
    } else {
      assert (a + b)[1..] == a[1..] + b;
      RenderAllAppend(a[1..], b);
    }
  }

  /** One rendering step appends the line of its visit. */
  lemma StepRenders(e: Visit, out: string)
    ensures Step(e, out, FormatPre, FormatTodo, FormatAfter) == out + RenderRow(e)
  {
    if e.Leave? {
      assert out + "" == out;
    }
  }

  lemma RenderRowsCons(es: seq<Visit>)
    requires es != []
    ensures RenderAll(Rows(es)) == RenderRow(es[0]) + RenderAll(Rows(es[1..]))
  {
    var rest := Rows(es[1..]);
    if es[0].Leave? {
      assert Rows(es) == rest;
      assert "" + RenderAll(rest) == RenderAll(rest);
    } else {
      assert Rows(es) == [es[0]] + rest;
      assert ([es[0]] + rest)[1..] == rest;
    }
  }

  /** Replaying the rendering handlers over any visit list appends the
      lines of its rows, in order. */
  lemma {:induction false} ReplayRenders(es: seq<Visit>, out: string)
    ensures Replay(es, out, FormatPre, FormatTodo, FormatAfter) == out + RenderAll(Rows(es))
  {
    if es == [] {
      assert out + "" == out;
    } else {
      var out' := Step(es[0], out, FormatPre, FormatTodo, FormatAfter);
      StepRenders(es[0], out);
      ReplayRenders(es[1..], out');
      RenderRowsCons(es);
      Associate(out, RenderRow(es[0]), RenderAll(Rows(es[1..])));
    }
  }

  /** Rendering one group subtree appends the lines of its rows. */
  lemma TraverseRenders(g: Group, out: string, depth: nat)
    ensures Traverse(g, out, FormatPre, FormatTodo, FormatAfter, depth) == out + RenderAll(Rows(Order(g, depth, Opened)))
  {
    assert forall h, d, v :: FormatPre(h, d, v).0 == Opened(h, d);
    TraverseFollowsOrder(g, out, FormatPre, FormatTodo, FormatAfter, depth, Opened);
    ReplayRenders(Order(g, depth, Opened), out);
  }

  lemma RenderConcat(out: string, first: seq<Visit>, rest: seq<Visit>)
    ensures out + RenderAll(Rows(first)) + RenderAll(Rows(rest)) == out + RenderAll(Rows(first + rest))
  {
    RowsAppend(first, rest);
    RenderAllAppend(Rows(first), Rows(rest));
    Associate(out, RenderAll(Rows(first)), RenderAll(Rows(rest)));
  }

  lemma Associate(x: string, y: string, z: string)
    ensures x + y + z == x + (y + z)
  {
  }

  lemma {:induction false} FormatFromRenders(groups: seq<Group>, out: string)
    ensures FormatFrom(groups, out) == out + RenderAll(Rows(OrderEach(groups, 1, Opened)))
  {
    if groups != [] {
      var out' := Traverse(groups[0], out, FormatPre, FormatTodo, FormatAfter, 1);
      TraverseRenders(groups[0], out, 1);
      FormatFromRenders(groups[1..], out');
      RenderConcat(out, Order(groups[0], 1, Opened), OrderEach(groups[1..], 1, Opened));
    }
  }

  /** `format_hierarchy` is the concatenation of one CR LF terminated line
      per visible row: every root header at depth 1 and, below each open
      group, its subgroups, todos and completed todos one level deeper. */
  lemma FormatHierarchyRendersRows(groups: seq<Group>)
    ensures FormatHierarchy(groups) == RenderAll(VisibleRows(groups))
  {
    FormatFromRenders(groups, "");
  }

  /** What the rows of one group are: its header, then, if it is open, the
      rows of its subgroups, its todos and its completed todos. */
  lemma {:induction false} GroupRows(g: Group, depth: nat)
    ensures Rows(Order(g, depth, Opened))
         == [Enter(g, depth)]
            + (if g.open
               then Rows(OrderEach(g.subgroups, depth + 1, Opened)) + Leaves(g.todos, depth + 1) + Leaves(g.completed, depth + 1)
               else [])
  {
    var enter, leave := [Enter(g, depth)], [Leave(g, depth)];
    var mid := if g.open
               then OrderEach(g.subgroups, depth + 1, Opened) + Leaves(g.todos, depth + 1) + Leaves(g.completed, depth + 1)
               else [];
    assert Order(g, depth, Opened) == enter + mid + leave;
    RowsAppend(enter + mid, leave);
    RowsAppend(enter, mid);
    assert Rows(leave) == [];
    assert Rows(enter) == enter;
    if g.open {
      var subs := OrderEach(g.subgroups, depth + 1, Opened);
      var ts, cs := Leaves(g.todos, depth + 1), Leaves(g.completed, depth + 1);
      LeavesAreRows(g.todos, depth + 1);
      LeavesAreRows(g.completed, depth + 1);
      RowsAppend(subs + ts, cs);
      RowsAppend(subs, ts);
      assert Rows(mid) == Rows(subs) + ts + cs;
    } else {
      assert Rows(mid) == [];
    }
  }

  lemma {:induction false} LeavesAreRows(ts: seq<Todo>, depth: nat)
    ensures Rows(Leaves(ts, depth)) == Leaves(ts, depth)
  {
    if ts != [] {
      assert Leaves(ts, depth)[1..] == Leaves(ts[1..], depth);
      LeavesAreRows(ts[1..], depth);
      assert Leaves(ts, depth) == [Leaf(ts[0], depth)] + Leaves(ts[1..], depth);
    }
  }

  lemma {:induction false} SameContentRefl(g: Group)
    ensures SameContent(g, g)
    decreases g
  {
    forall i | 0 <= i < |g.subgroups| ensures SameContent(g.subgroups[i], g.subgroups[i]) {
      SameContentRefl(g.subgroups[i]);
    }
  }

  /** Flipping a group's `open` flag keeps its content. */
  lemma FlipKeepsContent(g: Group, open: bool)
    ensures SameContent(g, g.(open := open))
  {
    SameContentRefl(g);
  }
}
