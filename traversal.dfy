/** The generic fold over a group subtree (`Group::traverse` and
    `Group::traverse_mut`), and its visiting order stated as a list of
    visits that the fold replays one by one. */
module Traversal {
  import opened Tree

  /** `traverse`: `pre` decides whether to descend and transforms the
      accumulator; then, when descending, every subgroup is traversed in
      order one level deeper, then `onTodo` runs on each todo and each
      completed todo; `after` always runs last at the node's own depth. */
  function Traverse<T>(g: Group, value: T, pre: (Group, nat, T) -> (bool, T),
                       onTodo: (Todo, nat, T) -> T, after: (Group, nat, T) -> T,
                       depth: nat): T
    decreases g, 1
  {
    var (descend, v) := pre(g, depth, value);
    var inner :=
      if descend then
        FoldTodos(g.completed,
                  FoldTodos(g.todos, TraverseEach(g.subgroups, v, pre, onTodo, after, depth + 1),
                            onTodo, depth + 1),
                  onTodo, depth + 1)
      else v;
    after(g, depth, inner)
  }

  /** The loop over the subgroups: each one is traversed completely before the next. */
  function TraverseEach<T>(gs: seq<Group>, value: T, pre: (Group, nat, T) -> (bool, T),
                           onTodo: (Todo, nat, T) -> T, after: (Group, nat, T) -> T,
                           depth: nat): T
    decreases gs, 0
  {
    if gs == [] then value
    else TraverseEach(gs[1..], Traverse(gs[0], value, pre, onTodo, after, depth),
                      pre, onTodo, after, depth)
  }

  /** The loop over a todo list, in list order. */
  function FoldTodos<T>(ts: seq<Todo>, value: T, onTodo: (Todo, nat, T) -> T, depth: nat): T
  {
    if ts == [] then value else FoldTodos(ts[1..], onTodo(ts[0], depth, value), onTodo, depth)
  }

  /** One handler call of a traversal: entering a group, visiting a todo, or leaving a group. */
  datatype Visit = Enter(group: Group, depth: nat) | Leaf(todo: Todo, depth: nat) | Leave(group: Group, depth: nat)

  /** The visits of a todo list at one depth. */
  function Leaves(ts: seq<Todo>, depth: nat): (r: seq<Visit>)
    ensures |r| == |ts|
    ensures forall i :: 0 <= i < |ts| ==> r[i] == Leaf(ts[i], depth)
  {
    seq(|ts|, i requires 0 <= i < |ts| => Leaf(ts[i], depth))
  }

  /** Reference visiting order of a traversal whose descend decision for a
      node is `descend(node, depth)`: pre-order entry, subgroups fully in
      sequence order, todos, completed todos, then the exit. */
  function Order(g: Group, depth: nat, descend: (Group, nat) -> bool): (r: seq<Visit>)
    ensures |r| >= 2 && r[0] == Enter(g, depth) && r[|r| - 1] == Leave(g, depth)
    decreases g, 1
  {
    [Enter(g, depth)]
    + (if descend(g, depth)
       then OrderEach(g.subgroups, depth + 1, descend) + Leaves(g.todos, depth + 1) + Leaves(g.completed, depth + 1)
       else [])
    + [Leave(g, depth)]
  }

  /** The visits of a list of sibling groups, one after the other. */
  function OrderEach(gs: seq<Group>, depth: nat, descend: (Group, nat) -> bool): seq<Visit>
    decreases gs, 0
  {
    if gs == [] then [] else Order(gs[0], depth, descend) + OrderEach(gs[1..], depth, descend)
  }

  /** Applies the handler that a visit stands for. */
  function Step<T>(e: Visit, value: T, pre: (Group, nat, T) -> (bool, T),
                   onTodo: (Todo, nat, T) -> T, after: (Group, nat, T) -> T): T
  {
    match e
    case Enter(g, d) => pre(g, d, value).1
    case Leaf(t, d) => onTodo(t, d, value)
    case Leave(g, d) => after(g, d, value)
  }

  /** Threads the accumulator through a list of visits, front to back. */
  function Replay<T>(es: seq<Visit>, value: T, pre: (Group, nat, T) -> (bool, T),
                     onTodo: (Todo, nat, T) -> T, after: (Group, nat, T) -> T): T
  {
    if es == [] then value else Replay(es[1..], Step(es[0], value, pre, onTodo, after), pre, onTodo, after)
  }

  lemma {:induction false} ReplayAppend<T>(a: seq<Visit>, b: seq<Visit>, value: T,
                                           pre: (Group, nat, T) -> (bool, T),
                                           onTodo: (Todo, nat, T) -> T, after: (Group, nat, T) -> T)
    ensures Replay(a + b, value, pre, onTodo, after)
         == Replay(b, Replay(a, value, pre, onTodo, after), pre, onTodo, after)
  {
    if a != [] {
      assert (a + b)[1..] == a[1..] + b;
      ReplayAppend(a[1..], b, Step(a[0], value, pre, onTodo, after), pre, onTodo, after);
    } else {
      assert a + b == b;
    }
  }

  lemma {:induction false} FoldTodosReplays<T>(ts: seq<Todo>, value: T, pre: (Group, nat, T) -> (bool, T),
                                               onTodo: (Todo, nat, T) -> T, after: (Group, nat, T) -> T,
                                               depth: nat)
    ensures FoldTodos(ts, value, onTodo, depth) == Replay(Leaves(ts, depth), value, pre, onTodo, after)
  {
    if ts != [] {
      assert Leaves(ts, depth)[1..] == Leaves(ts[1..], depth);
      FoldTodosReplays(ts[1..], onTodo(ts[0], depth, value), pre, onTodo, after, depth);
    }
  }

  /** The visiting order of `traverse`: when `pre`'s descend decision is
      `descend(node, depth)`, the traversal is the replay of `Order`. */
  /** `ReplayAppend` across the five parts of a visited group's events. */
  lemma ReplayFive<T>(a: seq<Visit>, b: seq<Visit>, c: seq<Visit>, d: seq<Visit>, e: seq<Visit>, value: T,
                      pre: (Group, nat, T) -> (bool, T),
                      onTodo: (Todo, nat, T) -> T, after: (Group, nat, T) -> T)
    ensures Replay(a + (b + c + d) + e, value, pre, onTodo, after)
         == Replay(e, Replay(d, Replay(c, Replay(b, Replay(a, value, pre, onTodo, after),
                   pre, onTodo, after), pre, onTodo, after), pre, onTodo, after), pre, onTodo, after)
  {
    assert a + (b + c + d) + e == a + b + c + d + e;
    ReplayAppend(a + b + c + d, e, value, pre, onTodo, after);
    ReplayAppend(a + b + c, d, value, pre, onTodo, after);
    ReplayAppend(a + b, c, value, pre, onTodo, after);
    ReplayAppend(a, b, value, pre, onTodo, after);
  }

  lemma {:induction false} TraverseFollowsOrder<T>(g: Group, value: T, pre: (Group, nat, T) -> (bool, T),
                                                   onTodo: (Todo, nat, T) -> T, after: (Group, nat, T) -> T,
                                                   depth: nat, descend: (Group, nat) -> bool)
    requires forall h, d, v :: pre(h, d, v).0 == descend(h, d)
    ensures Traverse(g, value, pre, onTodo, after, depth)
         == Replay(Order(g, depth, descend), value, pre, onTodo, after)
    decreases g, 1
  {
    if descend(g, depth) {
      TraverseDescendFollowsOrder(g, value, pre, onTodo, after, depth, descend);
    } else {
      var v := pre(g, depth, value).1;
      var enter, leave := [Enter(g, depth)], [Leave(g, depth)];
      assert Replay(enter, value, pre, onTodo, after) == v;
      assert Order(g, depth, descend) == enter + leave;
      ReplayAppend(enter, leave, value, pre, onTodo, after);
      assert Replay(leave, v, pre, onTodo, after) == after(g, depth, v);
    }
  }

  /** `TraverseFollowsOrder` for a group the traversal descends into. */
  lemma {:induction false} TraverseDescendFollowsOrder<T>(g: Group, value: T, pre: (Group, nat, T) -> (bool, T),
                                                          onTodo: (Todo, nat, T) -> T, after: (Group, nat, T) -> T,
                                                          depth: nat, descend: (Group, nat) -> bool)
    requires forall h, d, v :: pre(h, d, v).0 == descend(h, d)
    requires descend(g, depth)
    ensures Traverse(g, value, pre, onTodo, after, depth)
         == Replay(Order(g, depth, descend), value, pre, onTodo, after)
    decreases g, 0
  {
    var v := pre(g, depth, value).1;
    var enter, leave := [Enter(g, depth)], [Leave(g, depth)];
    assert Replay(enter, value, pre, onTodo, after) == v;
    var subs := OrderEach(g.subgroups, depth + 1, descend);
    var ts, cs := Leaves(g.todos, depth + 1), Leaves(g.completed, depth + 1);
    TraverseEachFollowsOrder(g.subgroups, v, pre, onTodo, after, depth + 1, descend);
    var v1 := TraverseEach(g.subgroups, v, pre, onTodo, after, depth + 1);
    FoldTodosReplays(g.todos, v1, pre, onTodo, after, depth + 1);
    var v2 := FoldTodos(g.todos, v1, onTodo, depth + 1);
    FoldTodosReplays(g.completed, v2, pre, onTodo, after, depth + 1);
    var v3 := FoldTodos(g.completed, v2, onTodo, depth + 1);
    assert Order(g, depth, descend) == enter + (subs + ts + cs) + leave;
    ReplayFive(enter, subs, ts, cs, leave, value, pre, onTodo, after);
    assert Replay(leave, v3, pre, onTodo, after) == after(g, depth, v3);
  }

  lemma {:induction false} TraverseEachFollowsOrder<T>(gs: seq<Group>, value: T, pre: (Group, nat, T) -> (bool, T),
                                                       onTodo: (Todo, nat, T) -> T, after: (Group, nat, T) -> T,
                                                       depth: nat, descend: (Group, nat) -> bool)
    requires forall h, d, v :: pre(h, d, v).0 == descend(h, d)
    ensures TraverseEach(gs, value, pre, onTodo, after, depth)
         == Replay(OrderEach(gs, depth, descend), value, pre, onTodo, after)
    decreases gs, 0
  {
    if gs != [] {
      TraverseFollowsOrder(gs[0], value, pre, onTodo, after, depth, descend);
      var v := Traverse(gs[0], value, pre, onTodo, after, depth);
      TraverseEachFollowsOrder(gs[1..], v, pre, onTodo, after, depth, descend);
      ReplayAppend(Order(gs[0], depth, descend), OrderEach(gs[1..], depth, descend), value, pre, onTodo, after);
    }
  }

  /** When `pre` declines to descend, no child or todo handler runs and
      `after` receives exactly the accumulator `pre` returned. */
  lemma TraverseSkipsChildren<T>(g: Group, value: T, pre: (Group, nat, T) -> (bool, T),
                                 onTodo: (Todo, nat, T) -> T, after: (Group, nat, T) -> T, depth: nat)
    requires !pre(g, depth, value).0
    ensures Traverse(g, value, pre, onTodo, after, depth) == after(g, depth, pre(g, depth, value).1)
  {
  }

  // ---------------------------------------------------------------------
  // traverse_mut: the handlers receive the node and return its new value.

  /** The handlers of the source's mutating traversal may edit the node in
      place; here `pre` returns the edited node. The source iterates the
      edited node's subgroups; a handler that replaced that list could make
      the recursion unbounded, so `pre` must leave it as it was. */
  ghost predicate KeepsSubgroups<T(!new)>(pre: (Group, nat, T) -> (bool, Group, T)) {
    forall g, d, v :: pre(g, d, v).1.subgroups == g.subgroups
  }

  /** `traverse_mut`: the same visiting order as `Traverse`, each handler
      returning the edited node (or todo) together with the accumulator. */
  function TraverseMut<T(!new)>(g: Group, value: T, pre: (Group, nat, T) -> (bool, Group, T),
                          onTodo: (Todo, nat, T) -> (Todo, T), after: (Group, nat, T) -> (Group, T),
                          depth: nat): (Group, T)
    requires KeepsSubgroups(pre)
    decreases g, 1
  {
    var (descend, g1, v1) := pre(g, depth, value);
    if descend then
      var (subs, v2) := TraverseEachMut(g.subgroups, v1, pre, onTodo, after, depth + 1);
      var (todos, v3) := FoldTodosMut(g1.todos, v2, onTodo, depth + 1);
      var (completed, v4) := FoldTodosMut(g1.completed, v3, onTodo, depth + 1);
      after(g1.(subgroups := subs, todos := todos, completed := completed), depth, v4)
    else
      after(g1, depth, v1)
  }

  function TraverseEachMut<T(!new)>(gs: seq<Group>, value: T, pre: (Group, nat, T) -> (bool, Group, T),
                              onTodo: (Todo, nat, T) -> (Todo, T), after: (Group, nat, T) -> (Group, T),
                              depth: nat): (r: (seq<Group>, T))
    requires KeepsSubgroups(pre)
    ensures |r.0| == |gs|
    decreases gs, 0
  {
    if gs == [] then ([], value)
    else
      var (g', v) := TraverseMut(gs[0], value, pre, onTodo, after, depth);
      var (rest, v') := TraverseEachMut(gs[1..], v, pre, onTodo, after, depth);
      ([g'] + rest, v')
  }

  function FoldTodosMut<T>(ts: seq<Todo>, value: T, onTodo: (Todo, nat, T) -> (Todo, T), depth: nat): (r: (seq<Todo>, T))
    ensures |r.0| == |ts|
  {
    if ts == [] then ([], value)
    else
      var (t', v) := onTodo(ts[0], depth, value);
      var (rest, v') := FoldTodosMut(ts[1..], v, onTodo, depth);
      ([t'] + rest, v')
  }

  /** Handlers of a mutating traversal that leave every node as it is and
      otherwise behave like the read-only handlers. */
  ghost predicate ReadOnlyHandlers<T(!new)>(preM: (Group, nat, T) -> (bool, Group, T), onTodoM: (Todo, nat, T) -> (Todo, T),
                                      afterM: (Group, nat, T) -> (Group, T),
                                      pre: (Group, nat, T) -> (bool, T), onTodo: (Todo, nat, T) -> T,
                                      after: (Group, nat, T) -> T)
  {
    && (forall g, d, v :: preM(g, d, v) == (pre(g, d, v).0, g, pre(g, d, v).1))
    && (forall t, d, v :: onTodoM(t, d, v) == (t, onTodo(t, d, v)))
    && (forall g, d, v :: afterM(g, d, v) == (g, after(g, d, v)))
  }

  lemma {:induction false} FoldTodosMutReadOnly<T>(ts: seq<Todo>, value: T, onTodoM: (Todo, nat, T) -> (Todo, T),
                                                   onTodo: (Todo, nat, T) -> T, depth: nat)
    requires forall t, d, v :: onTodoM(t, d, v) == (t, onTodo(t, d, v))
    ensures FoldTodosMut(ts, value, onTodoM, depth) == (ts, FoldTodos(ts, value, onTodo, depth))
  {
    if ts != [] {
      FoldTodosMutReadOnly(ts[1..], onTodo(ts[0], depth, value), onTodoM, onTodo, depth);
      assert [ts[0]] + ts[1..] == ts;
    }
  }

  /** `traverse_mut` with handlers that do not touch the node leaves the
      tree unchanged and computes what `traverse` computes, so it has the
      same visiting order and depth numbering. */
  lemma {:induction false} TraverseMutReadOnly<T(!new)>(g: Group, value: T,
                                                  preM: (Group, nat, T) -> (bool, Group, T),
                                                  onTodoM: (Todo, nat, T) -> (Todo, T),
                                                  afterM: (Group, nat, T) -> (Group, T),
                                                  pre: (Group, nat, T) -> (bool, T), onTodo: (Todo, nat, T) -> T,
                                                  after: (Group, nat, T) -> T, depth: nat)
    requires ReadOnlyHandlers(preM, onTodoM, afterM, pre, onTodo, after)
    ensures KeepsSubgroups(preM)
    ensures TraverseMut(g, value, preM, onTodoM, afterM, depth) == (g, Traverse(g, value, pre, onTodo, after, depth))
    decreases g, 1
  {
    var v := pre(g, depth, value).1;
    if pre(g, depth, value).0 {
      TraverseEachMutReadOnly(g.subgroups, v, preM, onTodoM, afterM, pre, onTodo, after, depth + 1);
      var v1 := TraverseEach(g.subgroups, v, pre, onTodo, after, depth + 1);
      FoldTodosMutReadOnly(g.todos, v1, onTodoM, onTodo, depth + 1);
      var v2 := FoldTodos(g.todos, v1, onTodo, depth + 1);
      FoldTodosMutReadOnly(g.completed, v2, onTodoM, onTodo, depth + 1);
      assert g.(subgroups := g.subgroups, todos := g.todos, completed := g.completed) == g;
    }
  }

  lemma {:induction false} TraverseEachMutReadOnly<T(!new)>(gs: seq<Group>, value: T,
                                                      preM: (Group, nat, T) -> (bool, Group, T),
                                                      onTodoM: (Todo, nat, T) -> (Todo, T),
                                                      afterM: (Group, nat, T) -> (Group, T),
                                                      pre: (Group, nat, T) -> (bool, T), onTodo: (Todo, nat, T) -> T,
                                                      after: (Group, nat, T) -> T, depth: nat)
    requires ReadOnlyHandlers(preM, onTodoM, afterM, pre, onTodo, after)
    ensures KeepsSubgroups(preM)
    ensures TraverseEachMut(gs, value, preM, onTodoM, afterM, depth) == (gs, TraverseEach(gs, value, pre, onTodo, after, depth))
    decreases gs, 0
  {
    if gs != [] {
      TraverseMutReadOnly(gs[0], value, preM, onTodoM, afterM, pre, onTodo, after, depth);
      var v := Traverse(gs[0], value, pre, onTodo, after, depth);
      TraverseEachMutReadOnly(gs[1..], v, preM, onTodoM, afterM, pre, onTodo, after, depth);
      assert [gs[0]] + gs[1..] == gs;
    }
  }
}
