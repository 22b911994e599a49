/** The vertical row of the cursor (`group_size` and `vert_pos`), tied to
    the rows `format_hierarchy` draws. */
module Position {
  import opened Tree
  import opened Traversal
  import opened Rendering
  import opened Paths

  /** `group_size`: the rows a group occupies on screen, one for a closed
      group and, for an open one, its header plus the rows of its
      subgroups and one per todo and completed todo. */
  function GroupSize(g: Group): (r: nat)
    ensures r >= 1
    decreases g, 1
  {
    if !g.open then 1 else 1 + SumSizes(g.subgroups) + |g.todos| + |g.completed|
  }

  /** The summed sizes of a list of sibling groups. */
  function SumSizes(gs: seq<Group>): nat
    decreases gs, 0
  {
    if gs == [] then 0 else GroupSize(gs[0]) + SumSizes(gs[1..])
  }

  lemma {:induction false} SumSizesAppend(a: seq<Group>, b: seq<Group>)
    ensures SumSizes(a + b) == SumSizes(a) + SumSizes(b)
  {
    if a == [] {
      assert a + b == b;
    } else {
      assert (a + b)[1..] == a[1..] + b;
      SumSizesAppend(a[1..], b);
    }
  }

  lemma SumSizesPrefix(gs: seq<Group>, i: nat)
    requires i < |gs|
    ensures SumSizes(gs[..i + 1]) == SumSizes(gs[..i]) + GroupSize(gs[i])
  {
    assert gs[..i + 1] == gs[..i] + [gs[i]];
    SumSizesAppend(gs[..i], [gs[i]]);
    assert [gs[i]][1..] == [];
  }

  lemma SumSizesCons(gs: seq<Group>, i: nat)
    requires 0 < i <= |gs|
    ensures SumSizes(gs[..i]) == GroupSize(gs[0]) + SumSizes(gs[1..][..i - 1])
  {
    var p := gs[..i];
    assert p[0] == gs[0] && p[1..] == gs[1..][..i - 1];
  }

  /** A group occupies exactly as many rows as the renderer draws for it. */
  lemma {:induction false} GroupSizeIsRows(g: Group, depth: nat)
    ensures GroupSize(g) == |Rows(Order(g, depth, Opened))|
    decreases g, 1
  {
    GroupRows(g, depth);
    if g.open {
      SumSizesIsRows(g.subgroups, depth + 1);
    }
  }

  lemma {:induction false} SumSizesIsRows(gs: seq<Group>, depth: nat)
    ensures SumSizes(gs) == |Rows(OrderEach(gs, depth, Opened))|
    decreases gs, 0
  {
    if gs != [] {
      GroupSizeIsRows(gs[0], depth);
      SumSizesIsRows(gs[1..], depth);
      RowsAppend(Order(gs[0], depth, Opened), OrderEach(gs[1..], depth, Opened));
    }
  }

  /** In a list of siblings, the rows of the `i`-th start after the rows of the ones before it. */
  lemma {:induction false} ForestRow(gs: seq<Group>, depth: nat, i: nat, k: nat)
    requires i < |gs| && k < |Rows(Order(gs[i], depth, Opened))|
    ensures SumSizes(gs[..i]) + k < |Rows(OrderEach(gs, depth, Opened))|
    ensures Rows(OrderEach(gs, depth, Opened))[SumSizes(gs[..i]) + k] == Rows(Order(gs[i], depth, Opened))[k]
    decreases i
  {
    var first, rest := Order(gs[0], depth, Opened), OrderEach(gs[1..], depth, Opened);
    var all, head, tail := Rows(OrderEach(gs, depth, Opened)), Rows(first), Rows(rest);
    assert all == head + tail by {
      assert OrderEach(gs, depth, Opened) == first + rest;
      RowsAppend(first, rest);
    }
    if i == 0 {
      assert gs[..i] == [];
      assert all[k] == head[k];
    } else {
      assert |head| == GroupSize(gs[0]) by {
        GroupSizeIsRows(gs[0], depth);
      }
      assert SumSizes(gs[..i]) == |head| + SumSizes(gs[1..][..i - 1]) by {
        SumSizesCons(gs, i);
      }
      assert gs[1..][i - 1] == gs[i];
      ForestRow(gs[1..], depth, i - 1, k);
      var at := SumSizes(gs[1..][..i - 1]) + k;
      assert tail[at] == Rows(Order(gs[i], depth, Opened))[k];
      assert all[|head| + at] == tail[at];
    }
  }

  /** The row offset below a group's header of the item a rest-of-path
      selects. Like the source's loop, an index at or past the subgroups
      counts the subgroups' rows and then the todos before it, and does
      not descend. */
  function Below(g: Group, q: seq<nat>): nat
    decreases |q|
  {
    if q == [] then 0
    else if q[0] < |g.subgroups| then 1 + SumSizes(g.subgroups[..q[0]]) + Below(g.subgroups[q[0]], q[1..])
    else 1 + SumSizes(g.subgroups) + (q[0] - |g.subgroups|) + Below(g, q[1..])
  }

  /** `vert_pos`: the sizes of the roots before the selected one plus the
      offset of the item inside it. */
  function VertPosOf(groups: seq<Group>, p: seq<nat>): Result<nat>
  {
    if p == [] then Err(NoIndex)
    else if p[0] >= |groups| then Err(GroupNotFound)
    else Ok(SumSizes(groups[..p[0]]) + Below(groups[p[0]], p[1..]))
  }

  /** The row a selected item is drawn on. */
  function RowOf(it: Item, depth: nat): Visit {
    match it
    case GroupItem(g) => Enter(g, depth)
    case TodoItem(t) => Leaf(t, depth)
  }

  /** Every group above the selected item is open, so the item is drawn. */
  predicate ShownIn(g: Group, q: seq<nat>)
    decreases |q|
  {
    q == [] || (g.open && (|q| == 1 || (q[0] < |g.subgroups| && ShownIn(g.subgroups[q[0]], q[1..]))))
  }

  predicate Shown(groups: seq<Group>, p: seq<nat>) {
    |p| > 0 && p[0] < |groups| && ShownIn(groups[p[0]], p[1..])
  }

  lemma {:induction false} BelowIsRow(g: Group, q: seq<nat>, depth: nat)
    requires Resolve(g, q).Some? && ShownIn(g, q)
    ensures Below(g, q) < |Rows(Order(g, depth, Opened))|
    ensures Rows(Order(g, depth, Opened))[Below(g, q)] == RowOf(Resolve(g, q).value, depth + |q|)
    decreases |q|, 1
  {
    if q == [] {
      GroupRows(g, depth);
    } else if q[0] < |g.subgroups| {
      BelowSubgroupIsRow(g, q, depth);
    } else {
      assert |q| == 1;
      TodoRow(g, q[0], depth);
    }
  }

  /** `BelowIsRow` when the path goes through the subgroup `q[0]`. */
  lemma {:induction false} BelowSubgroupIsRow(g: Group, q: seq<nat>, depth: nat)
    requires Resolve(g, q).Some? && ShownIn(g, q) && q != [] && q[0] < |g.subgroups|
    ensures Below(g, q) < |Rows(Order(g, depth, Opened))|
    ensures Rows(Order(g, depth, Opened))[Below(g, q)] == RowOf(Resolve(g, q).value, depth + |q|)
    decreases |q|, 0
  {
    var sub := g.subgroups[q[0]];
    if |q| == 1 {
      GroupRows(sub, depth + 1);
      SubgroupRow(g, q[0], 0, depth);
    } else {
      BelowIsRow(sub, q[1..], depth + 1);
      SubgroupRow(g, q[0], Below(sub, q[1..]), depth);
    }
  }

  /** Inside an open group, row `k` of its `i`-th subgroup. */
  lemma SubgroupRow(g: Group, i: nat, k: nat, depth: nat)
    requires g.open && i < |g.subgroups| && k < |Rows(Order(g.subgroups[i], depth + 1, Opened))|
    ensures 1 + SumSizes(g.subgroups[..i]) + k < |Rows(Order(g, depth, Opened))|
    ensures Rows(Order(g, depth, Opened))[1 + SumSizes(g.subgroups[..i]) + k]
         == Rows(Order(g.subgroups[i], depth + 1, Opened))[k]
  {
    var subs := Rows(OrderEach(g.subgroups, depth + 1, Opened));
    var ts, cs := Leaves(g.todos, depth + 1), Leaves(g.completed, depth + 1);
    ForestRow(g.subgroups, depth + 1, i, k);
    assert Rows(Order(g, depth, Opened)) == [Enter(g, depth)] + (subs + ts + cs) by { GroupRows(g, depth); }
  }

  /** The rows of an open group: its header and its subgroups' rows, then
      one row per todo and per completed todo. */
  lemma OpenRows(g: Group, depth: nat)
    requires g.open
    ensures var head := [Enter(g, depth)] + Rows(OrderEach(g.subgroups, depth + 1, Opened));
            && |head| == 1 + SumSizes(g.subgroups)
            && Rows(Order(g, depth, Opened)) == head + (Leaves(g.todos, depth + 1) + Leaves(g.completed, depth + 1))
  {
    var subs := Rows(OrderEach(g.subgroups, depth + 1, Opened));
    var ts, cs := Leaves(g.todos, depth + 1), Leaves(g.completed, depth + 1);
    GroupRows(g, depth);
    assert [Enter(g, depth)] + (subs + ts + cs) == ([Enter(g, depth)] + subs) + (ts + cs);
    SumSizesIsRows(g.subgroups, depth + 1);
  }

  /** Inside an open group, the row of the todo at child index `k`. */
  lemma TodoRow(g: Group, k: nat, depth: nat)
    requires g.open && |g.subgroups| <= k < Len(g)
    ensures 1 + SumSizes(g.subgroups) + (k - |g.subgroups|) < |Rows(Order(g, depth, Opened))|
    ensures Rows(Order(g, depth, Opened))[1 + SumSizes(g.subgroups) + (k - |g.subgroups|)]
         == Leaf(Child(g, k).value.todo, depth + 1)
  {
    var ts, cs := Leaves(g.todos, depth + 1), Leaves(g.completed, depth + 1);
    var j := k - |g.subgroups|;
    OpenRows(g, depth);
    if j < |g.todos| {
      assert Child(g, k).value.todo == g.todos[j];
      assert (ts + cs)[j] == ts[j];
    } else {
      assert Child(g, k).value.todo == g.completed[j - |g.todos|];
      assert (ts + cs)[j] == cs[j - |g.todos|];
    }
  }

  /** `vert_pos` is the cursor's row on screen: for a path that resolves
      and whose groups above the item are all open, it indexes the rows
      `format_hierarchy` draws, and the row there is the selected item,
      drawn at depth equal to the path length. */
  lemma VertPosIsRow(groups: seq<Group>, p: seq<nat>)
    requires |p| > 0 && ItemOf(groups, p).Ok? && Shown(groups, p)
    ensures VertPosOf(groups, p).Ok?
    ensures VertPosOf(groups, p).value < |VisibleRows(groups)|
    ensures VisibleRows(groups)[VertPosOf(groups, p).value] == RowOf(ItemOf(groups, p).value.item, |p|)
  {
    ItemOfResolves(groups, p);
    var root := groups[p[0]];
    BelowIsRow(root, p[1..], 1);
    GroupSizeIsRows(root, 1);
    ForestRow(groups, 1, p[0], Below(root, p[1..]));
  }

  /** `vert_offset` with the terminal height passed in: a multiple of the
      height that grows by one height every four rows of cursor position
      (the cursor position shifted right by two, times the height). */
  function VertOffsetOf(groups: seq<Group>, p: seq<nat>, height: nat): (r: Result<nat>)
    ensures r.Ok? <==> VertPosOf(groups, p).Ok?
    ensures r.Ok? ==> 4 * r.value <= VertPosOf(groups, p).value * height <= 4 * r.value + 3 * height
    ensures r.Ok? ==> exists k: nat {:trigger k * height} :: r.value == k * height && 4 * k <= VertPosOf(groups, p).value < 4 * k + 4
  {
    match VertPosOf(groups, p)
    case Err(e) => Err(e)
    case Ok(v) => QuarterBounds(v, height); QuarterWitness(v, height); Ok((v / 4) * height)
  }

  lemma QuarterWitness(v: nat, height: nat)
    ensures exists k: nat {:trigger k * height} :: (v / 4) * height == k * height && 4 * k <= v < 4 * k + 4
  {
    var k: nat := v / 4;
    assert (v / 4) * height == k * height && 4 * k <= v < 4 * k + 4;
  }

  lemma QuarterBounds(v: nat, height: nat)
    ensures 4 * ((v / 4) * height) <= v * height <= 4 * ((v / 4) * height) + 3 * height
  {
    var q, r := v / 4, v % 4;
    assert v == 4 * q + r && r < 4;
    assert v * height == 4 * (q * height) + r * height;
    assert r * height <= 3 * height;
  }

  /** An open root with two todos and no subgroups: its second todo is on row 2. */
  lemma VertPosExample(a: Group)
    requires a.open && a.subgroups == [] && |a.todos| == 2
    ensures VertPosOf([a], [0, 1]) == Ok(2)
  {
    assert [a][..0] == [];
    assert [0, 1][1..] == [1] && [1][1..] == [];
  }
}
