/** `TodoConfig`: the live forest, the archived root groups and the
    archive delay, plus the tree a fresh installation starts with. */
module Config {
  import opened Tree
  import opened Traversal
  import opened Rendering

  /** One day in seconds, the default `archive_time`. */
  const OneDay: int := 86400

  /** The todo the default tree is built from; every entry is created at the same instant. */
  function Fresh(name: string, created: int): Todo {
    Todo(name, None, None, created)
  }

  /** The default forest: one open root "Welcome" holding two open
      subgroups with one todo each and two active todos of its own. */
  function WelcomeForest(created: int): (r: seq<Group>)
    ensures |r| == 1 && r[0].open && !r[0].hidden && r[0].name == "Welcome"
    ensures Len(r[0]) == 4 && r[0].completed == [] && r[0].todoArchive == [] && r[0].subgroupArchive == []
  {
    [Group(false, "Welcome", true,
           [Fresh("Welcome to todo!", created), Fresh("Press 'h' for help", created)],
           [], [],
           [Group(false, "Subgroup", true, [Fresh("This is a subgroup", created)], [], [], [], []),
            Group(false, "Another subgroup", true, [Fresh("This is another subgroup", created)], [], [], [], [])],
           [])]
  }

  class TodoConfig {
    var groups: seq<Group>
    var archiveGroups: seq<Group>
    /** How long a completed todo stays visible before the sweep archives it. */
    var archiveTime: int

    /** `TodoConfig::default`, with the clock reading passed in. */
    constructor Default(created: int)
      ensures groups == WelcomeForest(created) && archiveGroups == [] && archiveTime == OneDay
    {
      groups := WelcomeForest(created);
      archiveGroups := [];
      archiveTime := OneDay;
    }
  }

  /** The default tree holds four not-done todos. */
  lemma WelcomeCount(created: int)
    ensures TodoCount(WelcomeForest(created)[0]) == 4
  {
    var f := WelcomeForest(created);
    TodoCountIsActiveCount(f[0]);
    var subs := f[0].subgroups;
    assert ActiveCount(subs[0]) == 1 && ActiveCount(subs[1]) == 1;
    assert ActiveEach(subs[1..]) == 1;
    assert ActiveIn(f[0].todos) == 2;
  }

  /** The rows of the default tree: everything is open, so every group and todo is shown. */
  lemma WelcomeRows(created: int)
    ensures var f := WelcomeForest(created);
      var root, s0, s1 := f[0], f[0].subgroups[0], f[0].subgroups[1];
      VisibleRows(f)
        == [Enter(root, 1), Enter(s0, 2), Leaf(s0.todos[0], 3), Enter(s1, 2), Leaf(s1.todos[0], 3),
            Leaf(root.todos[0], 2), Leaf(root.todos[1], 2)]
  {
    var f := WelcomeForest(created);
    var root, s0, s1 := f[0], f[0].subgroups[0], f[0].subgroups[1];
    GroupRows(root, 1);
    GroupRows(s0, 2);
    GroupRows(s1, 2);
    assert root.subgroups[1..][1..] == [];
    assert OrderEach(root.subgroups[1..], 2, Opened) == Order(s1, 2, Opened);
    assert OrderEach(root.subgroups, 2, Opened) == Order(s0, 2, Opened) + Order(s1, 2, Opened);
    RowsAppend(Order(s0, 2, Opened), Order(s1, 2, Opened));
    assert OrderEach(f, 1, Opened) == Order(root, 1, Opened);
  }

  /** The lines of `ls` joined in order. */
  function Concat(ls: seq<string>): string {
    if ls == [] then "" else ls[0] + Concat(ls[1..])
  }

  /** The default tree renders as seven lines, everything expanded: the
      root at depth 1, its subgroups at depth 2 each followed by its todo
      at depth 3, then the root's two todos at depth 2. */
  lemma WelcomeRendering(created: int)
    ensures FormatHierarchy(WelcomeForest(created))
         == Concat([Line(1, '*', "Welcome"),
                    Line(2, '*', "Subgroup"),
                    Line(3, ' ', "This is a subgroup"),
                    Line(2, '*', "Another subgroup"),
                    Line(3, ' ', "This is another subgroup"),
                    Line(2, ' ', "Welcome to todo!"),
                    Line(2, ' ', "Press 'h' for help")])
  {
    var f := WelcomeForest(created);
    var root, s0, s1 := f[0], f[0].subgroups[0], f[0].subgroups[1];
    FormatHierarchyRendersRows(f);
    WelcomeRows(created);
    var rows := [Enter(root, 1), Enter(s0, 2), Leaf(s0.todos[0], 3), Enter(s1, 2), Leaf(s1.todos[0], 3),
                 Leaf(root.todos[0], 2), Leaf(root.todos[1], 2)];
    var lines := [Line(1, '*', "Welcome"), Line(2, '*', "Subgroup"), Line(3, ' ', "This is a subgroup"),
                  Line(2, '*', "Another subgroup"), Line(3, ' ', "This is another subgroup"),
                  Line(2, ' ', "Welcome to todo!"), Line(2, ' ', "Press 'h' for help")];
    forall k | 0 <= k < 7 ensures RenderRow(rows[k]) == lines[k] { }
    RenderAllIsConcat(rows, lines);
  }

  lemma {:induction false} RenderAllIsConcat(rows: seq<Visit>, lines: seq<string>)
    requires |rows| == |lines|
    requires forall k :: 0 <= k < |rows| ==> RenderRow(rows[k]) == lines[k]
    ensures RenderAll(rows) == Concat(lines)
  {
    if rows != [] {
      RenderAllIsConcat(rows[1..], lines[1..]);
    }
  }
}
