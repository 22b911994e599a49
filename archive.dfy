/** The two whole-tree passes of main.rs that go through `traverse_mut`:
    the archive sweep run before every event, which moves completed todos
    older than `archive_time` into `todo_archive`, and the clean command,
    which empties every archive. Both apply one edit to every group and
    always descend, so both are instances of `MapTree`. */
module Archive {
  import opened Tree
  import opened Traversal
  import opened Rendering
  import opened Paths
  import opened Edits

  // ---------------------------------------------------------------------
  // One group edit applied to every group of a tree.

  /** `f(g, v)` edits a group's own fields and leaves its subgroup list,
      and commutes with replacing that list. */
  ghost predicate LocalEdit<T(!new)>(f: (Group, T) -> Group) {
    && (forall g: Group, v :: f(g, v).subgroups == g.subgroups)
    && (forall g: Group, v, subs: seq<Group> :: f(g.(subgroups := subs), v) == f(g, v).(subgroups := subs))
  }

  /** Reference definition: `f(-, v)` applied to every group of the tree. */
  function MapTree<T>(g: Group, f: (Group, T) -> Group, v: T): Group
    decreases g, 1
  {
    f(g, v).(subgroups := MapEach(g.subgroups, f, v))
  }

  function MapEach<T>(gs: seq<Group>, f: (Group, T) -> Group, v: T): (r: seq<Group>)
    ensures |r| == |gs|
    ensures forall i :: 0 <= i < |gs| ==> r[i] == MapTree(gs[i], f, v)
    decreases gs, 0
  {
    if gs == [] then [] else [MapTree(gs[0], f, v)] + MapEach(gs[1..], f, v)
  }

  /** The `pre` handler of both passes: edit the node, keep the value, descend. */
  function EditPre<T>(f: (Group, T) -> Group): (Group, nat, T) -> (bool, Group, T) {
    (g, d, v) => (true, f(g, v), v)
  }

  /** The identity `todo` and `after` handlers of both passes. */
  function KeepTodo<T>(): (Todo, nat, T) -> (Todo, T) {
    (t, d, v) => (t, v)
  }

  function KeepGroup<T>(): (Group, nat, T) -> (Group, T) {
    (g, d, v) => (g, v)
  }

  lemma EditPreKeeps<T(!new)>(f: (Group, T) -> Group)
    requires LocalEdit(f)
    ensures KeepsSubgroups(EditPre(f))
  {
  }

  /** `traverse_mut` with an editing `pre` and identity handlers applies the
      edit to every group of the tree and hands the value back unchanged. */
  lemma {:induction false} TraverseMutMaps<T(!new)>(g: Group, value: T, f: (Group, T) -> Group, depth: nat)
    requires LocalEdit(f)
    ensures KeepsSubgroups(EditPre(f))
    ensures TraverseMut(g, value, EditPre(f), KeepTodo(), KeepGroup(), depth) == (MapTree(g, f, value), value)
    decreases g, 1
  {
    EditPreKeeps(f);
    var g1 := f(g, value);
    TraverseEachMutMaps(g.subgroups, value, f, depth + 1);
    var onTodo: (Todo, nat, T) -> T := (t, d, v) => v;
    FoldTodosMutReadOnly(g1.todos, value, KeepTodo(), onTodo, depth + 1);
    FoldTodosMutReadOnly(g1.completed, value, KeepTodo(), onTodo, depth + 1);
    FoldTodosKeeps(g1.todos, value, onTodo, depth + 1);
    FoldTodosKeeps(g1.completed, value, onTodo, depth + 1);
  }

  lemma {:induction false} TraverseEachMutMaps<T(!new)>(gs: seq<Group>, value: T, f: (Group, T) -> Group, depth: nat)
    requires LocalEdit(f)
    ensures KeepsSubgroups(EditPre(f))
    ensures TraverseEachMut(gs, value, EditPre(f), KeepTodo(), KeepGroup(), depth) == (MapEach(gs, f, value), value)
    decreases gs, 0
  {
    EditPreKeeps(f);
    if gs != [] {
      TraverseMutMaps(gs[0], value, f, depth);
      TraverseEachMutMaps(gs[1..], value, f, depth);
    }
  }

  lemma {:induction false} FoldTodosKeeps<T>(ts: seq<Todo>, value: T, onTodo: (Todo, nat, T) -> T, depth: nat)
    requires forall t, d, v :: onTodo(t, d, v) == v
    ensures FoldTodos(ts, value, onTodo, depth) == value
  {
    if ts != [] {
      FoldTodosKeeps(ts[1..], value, onTodo, depth);
    }
  }

  /** An idempotent local edit, mapped over the tree, is idempotent. */
  lemma {:induction false} MapTreeIdempotent<T(!new)>(g: Group, f: (Group, T) -> Group, v: T)
    requires LocalEdit(f)
    requires forall h :: f(f(h, v), v) == f(h, v)
    ensures MapTree(MapTree(g, f, v), f, v) == MapTree(g, f, v)
    decreases g, 1
  {
    MapEachIdempotent(g.subgroups, f, v);
  }

  lemma {:induction false} MapEachIdempotent<T(!new)>(gs: seq<Group>, f: (Group, T) -> Group, v: T)
    requires LocalEdit(f)
    requires forall h :: f(f(h, v), v) == f(h, v)
    ensures MapEach(MapEach(gs, f, v), f, v) == MapEach(gs, f, v)
    decreases gs, 0
  {
    var once := MapEach(gs, f, v);
    forall i | 0 <= i < |gs| ensures MapEach(once, f, v)[i] == once[i] {
      MapTreeIdempotent(gs[i], f, v);
    }
  }

  /** Walking a mapped tree reaches the mapped subtree, and fails where
      walking the original fails: the edit keeps every route. */
  lemma {:induction false} WalkMapTree<T>(g: Group, f: (Group, T) -> Group, v: T, route: seq<nat>)
    ensures Walk(MapTree(g, f, v), route)
         == match Walk(g, route) case None => None case Some(h) => Some(MapTree(h, f, v))
    decreases |route|
  {
    if route != [] && route[0] < |g.subgroups| {
      WalkMapTree(g.subgroups[route[0]], f, v, route[1..]);
    }
  }

  /** `find_group` on a mapped forest finds the mapped group, and fails
      where it fails on the original forest. */
  lemma GroupOfMapped<T>(groups: seq<Group>, f: (Group, T) -> Group, v: T, p: seq<nat>)
    requires |p| > 0
    ensures GroupOf(groups, p).Ok? ==> GroupOf(MapEach(groups, f, v), p) == Ok(MapTree(GroupOf(groups, p).value, f, v))
    ensures GroupOf(groups, p).Err? ==> GroupOf(MapEach(groups, f, v), p) == GroupOf(groups, p)
  {
    if p[0] < |groups| && |p| > 1 {
      WalkMapTree(groups[p[0]], f, v, p[1..|p| - 1]);
    }
  }

  /** An edit that keeps a group's own not-done count keeps the tree's. */
  lemma {:induction false} MapTreeCount<T(!new)>(g: Group, f: (Group, T) -> Group, v: T)
    requires forall h :: ActiveIn(f(h, v).todos) + ActiveIn(f(h, v).completed) == ActiveIn(h.todos) + ActiveIn(h.completed)
    ensures ActiveCount(MapTree(g, f, v)) == ActiveCount(g)
    decreases g, 1
  {
    MapEachCount(g.subgroups, f, v);
  }

  lemma {:induction false} MapEachCount<T(!new)>(gs: seq<Group>, f: (Group, T) -> Group, v: T)
    requires forall h :: ActiveIn(f(h, v).todos) + ActiveIn(f(h, v).completed) == ActiveIn(h.todos) + ActiveIn(h.completed)
    ensures ActiveEach(MapEach(gs, f, v)) == ActiveEach(gs)
    decreases gs, 0
  {
    if gs != [] {
      MapTreeCount(gs[0], f, v);
      MapEachCount(gs[1..], f, v);
      assert MapEach(gs, f, v)[1..] == MapEach(gs[1..], f, v);
    }
  }

  // ---------------------------------------------------------------------
  // The archive sweep.

  /** Whether the sweep moves a completed todo: it has a done time, the
      local clock could be read, and more than `archiveTime` has passed. */
  predicate Expired(t: Todo, now: Option<int>, archiveTime: int) {
    t.doneTime.Some? && now.Some? && now.value - t.doneTime.value > archiveTime
  }

  /** The completed todos the sweep leaves in place, in their order. */
  function Kept(cs: seq<Todo>, now: Option<int>, archiveTime: int): (r: seq<Todo>)
    ensures forall i :: 0 <= i < |r| ==> !Expired(r[i], now, archiveTime)
  {
    if cs == [] then []
    else
      var rest := Kept(cs[1..], now, archiveTime);
      if Expired(cs[0], now, archiveTime) then rest else [cs[0]] + rest
  }

  /** The completed todos the sweep moves, in their order in `completed`. */
  function ExpiredOf(cs: seq<Todo>, now: Option<int>, archiveTime: int): (r: seq<Todo>)
    ensures forall i :: 0 <= i < |r| ==> Expired(r[i], now, archiveTime)
  {
    if cs == [] then []
    else
      var rest := ExpiredOf(cs[1..], now, archiveTime);
      if Expired(cs[0], now, archiveTime) then [cs[0]] + rest else rest
  }

  function Reversed<T>(s: seq<T>): (r: seq<T>)
    ensures |r| == |s|
    ensures forall i :: 0 <= i < |s| ==> r[i] == s[|s| - 1 - i]
  {
    if s == [] then [] else Reversed(s[1..]) + [s[0]]
  }

  lemma {:induction false} ReversedMultiset<T>(s: seq<T>)
    ensures multiset(Reversed(s)) == multiset(s)
  {
    if s != [] {
      ReversedMultiset(s[1..]);
      assert s == [s[0]] + s[1..];
    }
  }

  /** Every completed todo is either kept or moved, never both, never lost. */
  lemma {:induction false} KeptAndExpiredSplit(cs: seq<Todo>, now: Option<int>, archiveTime: int)
    ensures multiset(Kept(cs, now, archiveTime)) + multiset(ExpiredOf(cs, now, archiveTime)) == multiset(cs)
  {
    if cs != [] {
      KeptAndExpiredSplit(cs[1..], now, archiveTime);
      var k, x := Kept(cs[1..], now, archiveTime), ExpiredOf(cs[1..], now, archiveTime);
      assert multiset(cs) == multiset{cs[0]} + multiset(cs[1..]) by {
        assert cs == [cs[0]] + cs[1..];
      }
      if Expired(cs[0], now, archiveTime) {
        assert multiset(ExpiredOf(cs, now, archiveTime)) == multiset{cs[0]} + multiset(x);
      } else {
        assert multiset(Kept(cs, now, archiveTime)) == multiset{cs[0]} + multiset(k);
      }
    }
  }

  /** A list with nothing expired in it is kept whole. */
  lemma {:induction false} KeptAllFresh(cs: seq<Todo>, now: Option<int>, archiveTime: int)
    requires forall i :: 0 <= i < |cs| ==> !Expired(cs[i], now, archiveTime)
    ensures Kept(cs, now, archiveTime) == cs
    ensures ExpiredOf(cs, now, archiveTime) == []
  {
    if cs != [] {
      KeptAllFresh(cs[1..], now, archiveTime);
    }
  }

  /** Expired todos are done, so dropping them keeps the not-done count. */
  lemma {:induction false} KeptActive(cs: seq<Todo>, now: Option<int>, archiveTime: int)
    ensures ActiveIn(Kept(cs, now, archiveTime)) == ActiveIn(cs)
  {
    if cs != [] {
      KeptActive(cs[1..], now, archiveTime);
      var rest := Kept(cs[1..], now, archiveTime);
      assert ActiveIn(cs) == Act(cs[0]) + ActiveIn(cs[1..]);
      if Expired(cs[0], now, archiveTime) {
        assert Kept(cs, now, archiveTime) == rest;
        assert Act(cs[0]) == 0;
      } else {
        var k := [cs[0]] + rest;
        assert Kept(cs, now, archiveTime) == k;
        assert k[0] == cs[0] && k[1..] == rest;
        assert ActiveIn(k) == Act(cs[0]) + ActiveIn(rest);
      }
    }
  }

  /** The sweep's edit of one group: the expired completed todos leave
      `completed` and are appended to `todo_archive` last first, the order
      in which the backwards loop over `completed` meets them. */
  function SweepGroup(g: Group, now: Option<int>, archiveTime: int): (r: Group)
    ensures r.todos == g.todos && r.subgroups == g.subgroups && r.subgroupArchive == g.subgroupArchive
    ensures r.name == g.name && r.open == g.open && r.hidden == g.hidden
    ensures multiset(r.completed) + multiset(r.todoArchive) == multiset(g.completed) + multiset(g.todoArchive)
    ensures forall i :: 0 <= i < |r.completed| ==> !Expired(r.completed[i], now, archiveTime)
    ensures |g.todoArchive| <= |r.todoArchive| && r.todoArchive[..|g.todoArchive|] == g.todoArchive
    ensures forall i :: |g.todoArchive| <= i < |r.todoArchive| ==> Expired(r.todoArchive[i], now, archiveTime)
  {
    var expired := ExpiredOf(g.completed, now, archiveTime);
    var kept := Kept(g.completed, now, archiveTime);
    KeptAndExpiredSplit(g.completed, now, archiveTime);
    ReversedMultiset(expired);
    var archive := g.todoArchive + Reversed(expired);
    assert multiset(archive) == multiset(g.todoArchive) + multiset(expired);
    assert archive[..|g.todoArchive|] == g.todoArchive;
    g.(completed := kept, todoArchive := archive)
  }

  /** A group with nothing expired is left exactly as it was. */
  lemma SweepFreshGroup(g: Group, now: Option<int>, archiveTime: int)
    requires forall i :: 0 <= i < |g.completed| ==> !Expired(g.completed[i], now, archiveTime)
    ensures SweepGroup(g, now, archiveTime) == g
  {
    KeptAllFresh(g.completed, now, archiveTime);
    assert g.todoArchive + Reversed([]) == g.todoArchive;
  }

  lemma KeptStep(cs: seq<Todo>, i: nat, now: Option<int>, archiveTime: int)
    requires i < |cs|
    ensures Kept(cs[i..], now, archiveTime)
         == (if Expired(cs[i], now, archiveTime) then [] else [cs[i]]) + Kept(cs[i + 1..], now, archiveTime)
    ensures Reversed(ExpiredOf(cs[i..], now, archiveTime))
         == Reversed(ExpiredOf(cs[i + 1..], now, archiveTime)) + (if Expired(cs[i], now, archiveTime) then [cs[i]] else [])
  {
    assert cs[i..][0] == cs[i] && cs[i..][1..] == cs[i + 1..];
    var rest := ExpiredOf(cs[i + 1..], now, archiveTime);
    if Expired(cs[i], now, archiveTime) {
      assert ([cs[i]] + rest)[1..] == rest;
    } else {
      assert [] + Kept(cs[i + 1..], now, archiveTime) == Kept(cs[i + 1..], now, archiveTime);
      assert Reversed(rest) + [] == Reversed(rest);
    }
  }

  /** One iteration of the backwards loop, as the loop sees it. */
  lemma SweepStep(cs: seq<Todo>, i: nat, now: Option<int>, archiveTime: int)
    requires i < |cs|
    ensures var before := cs[..i + 1] + Kept(cs[i + 1..], now, archiveTime);
            && before[i] == cs[i]
            && (if Expired(cs[i], now, archiveTime) then Remove(before, i) else before)
               == cs[..i] + Kept(cs[i..], now, archiveTime)
  {
    KeptStep(cs, i, now, archiveTime);
    var kept := Kept(cs[i + 1..], now, archiveTime);
    assert cs[..i + 1] == cs[..i] + [cs[i]];
    if Expired(cs[i], now, archiveTime) {
      RemoveJoin(cs[..i], cs[i], kept);
    } else {
      assert cs[..i] + ([cs[i]] + kept) == cs[..i + 1] + kept;
    }
  }

  /** One iteration of the loop below, on both of its variables. */
  lemma SweepIteration(cs: seq<Todo>, i: nat, now: Option<int>, archiveTime: int,
                       completed: seq<Todo>, archive: seq<Todo>, base: seq<Todo>)
    requires i < |cs|
    requires completed == cs[..i + 1] + Kept(cs[i + 1..], now, archiveTime)
    requires archive == base + Reversed(ExpiredOf(cs[i + 1..], now, archiveTime))
    ensures i < |completed| && completed[i] == cs[i]
    ensures Expired(cs[i], now, archiveTime) ==>
              Remove(completed, i) == cs[..i] + Kept(cs[i..], now, archiveTime)
              && archive + [completed[i]] == base + Reversed(ExpiredOf(cs[i..], now, archiveTime))
    ensures !Expired(cs[i], now, archiveTime) ==>
              completed == cs[..i] + Kept(cs[i..], now, archiveTime)
              && archive == base + Reversed(ExpiredOf(cs[i..], now, archiveTime))
  {
    SweepStep(cs, i, now, archiveTime);
    ArchiveStep(cs, i, now, archiveTime, base);
  }

  lemma ArchiveStep(cs: seq<Todo>, i: nat, now: Option<int>, archiveTime: int, base: seq<Todo>)
    requires i < |cs|
    ensures var rest := base + Reversed(ExpiredOf(cs[i + 1..], now, archiveTime));
            (if Expired(cs[i], now, archiveTime) then rest + [cs[i]] else rest)
            == base + Reversed(ExpiredOf(cs[i..], now, archiveTime))
  {
    KeptStep(cs, i, now, archiveTime);
    var rest := Reversed(ExpiredOf(cs[i + 1..], now, archiveTime));
    if Expired(cs[i], now, archiveTime) {
      assert base + rest + [cs[i]] == base + (rest + [cs[i]]);
    } else {
      assert rest + [] == rest;
    }
  }

  lemma RemoveJoin<T>(a: seq<T>, x: T, b: seq<T>)
    ensures Remove(a + [x] + b, |a|) == a + b
  {
    var s := a + [x] + b;
    assert s[..|a|] == a && s[|a| + 1..] == b;
  }

  /** The sweep's loop over one group's `completed`, from the back so that
      removing an entry does not shift the ones still to be visited. */
  method SweepCompleted(g: Group, now: Option<int>, archiveTime: int) returns (r: Group)
    ensures r == SweepGroup(g, now, archiveTime)
  {
    var cs := g.completed;
    var completed, archive := cs, g.todoArchive;
    var i := |cs|;
    assert cs[..i] + Kept(cs[i..], now, archiveTime) == cs;
    assert g.todoArchive + Reversed(ExpiredOf(cs[i..], now, archiveTime)) == g.todoArchive;
    while i > 0
      invariant 0 <= i <= |cs|
      invariant completed == cs[..i] + Kept(cs[i..], now, archiveTime)
      invariant archive == g.todoArchive + Reversed(ExpiredOf(cs[i..], now, archiveTime))
    {
      i := i - 1;
      SweepIteration(cs, i, now, archiveTime, completed, archive, g.todoArchive);
      if Expired(completed[i], now, archiveTime) {
        archive := archive + [completed[i]];
        completed := Remove(completed, i);
      }
    }
    assert cs[0..] == cs;
    r := g.(completed := completed, todoArchive := archive);
  }

  /** The sweep's edit with the archive time taken from the traversal value. */
  function SweepEdit(now: Option<int>): (Group, int) -> Group {
    (g, archiveTime) => SweepGroup(g, now, archiveTime)
  }

  lemma SweepEditIsLocal(now: Option<int>)
    ensures LocalEdit(SweepEdit(now))
  {
  }

  /** The whole sweep of one root: `traverse_mut` carrying `archive_time`
      applies `SweepGroup` to every group of the tree. */
  lemma SweepTree(g: Group, now: Option<int>, archiveTime: int)
    ensures KeepsSubgroups(EditPre(SweepEdit(now)))
    ensures TraverseMut(g, archiveTime, EditPre(SweepEdit(now)), KeepTodo(), KeepGroup(), 0).0
         == MapTree(g, SweepEdit(now), archiveTime)
  {
    SweepEditIsLocal(now);
    TraverseMutMaps(g, archiveTime, SweepEdit(now), 0);
  }

  /** A second sweep with the same clock reading changes nothing. */
  lemma SweepIdempotent(g: Group, now: Option<int>, archiveTime: int)
    ensures MapTree(MapTree(g, SweepEdit(now), archiveTime), SweepEdit(now), archiveTime)
         == MapTree(g, SweepEdit(now), archiveTime)
  {
    SweepEditIsLocal(now);
    forall h | true ensures SweepGroup(SweepGroup(h, now, archiveTime), now, archiveTime) == SweepGroup(h, now, archiveTime) {
      SweepFreshGroup(SweepGroup(h, now, archiveTime), now, archiveTime);
    }
    MapTreeIdempotent(g, SweepEdit(now), archiveTime);
  }

  /** The sweep only moves done todos, so every group's `todo_count` stays. */
  lemma SweepKeepsCount(g: Group, now: Option<int>, archiveTime: int)
    ensures ActiveCount(MapTree(g, SweepEdit(now), archiveTime)) == ActiveCount(g)
  {
    forall h | true
      ensures ActiveIn(SweepEdit(now)(h, archiveTime).todos) + ActiveIn(SweepEdit(now)(h, archiveTime).completed)
           == ActiveIn(h.todos) + ActiveIn(h.completed)
    {
      KeptActive(h.completed, now, archiveTime);
    }
    MapTreeCount(g, SweepEdit(now), archiveTime);
  }

  // ---------------------------------------------------------------------
  // The clean command.

  /** The clean command's edit of one group: both archives emptied. */
  function CleanGroup(g: Group, u: ()): (r: Group)
    ensures r.todoArchive == [] && r.subgroupArchive == []
    ensures Children(r) == Children(g) && r.open == g.open && r.name == g.name && r.hidden == g.hidden
  {
    g.(todoArchive := [], subgroupArchive := [])
  }

  /** No group anywhere in the tree holds an archived todo or subgroup. */
  predicate NoArchives(g: Group)
    decreases g
  {
    g.todoArchive == [] && g.subgroupArchive == []
    && forall i :: 0 <= i < |g.subgroups| ==> NoArchives(g.subgroups[i])
  }

  /** The clean pass over one root: `traverse_mut` empties every archive of
      the tree and keeps everything shown. */
  lemma CleanTree(g: Group)
    ensures KeepsSubgroups(EditPre(CleanGroup))
    ensures TraverseMut(g, (), EditPre(CleanGroup), KeepTodo(), KeepGroup(), 0).0 == MapTree(g, CleanGroup, ())
  {
    TraverseMutMaps(g, (), CleanGroup, 0);
  }

  /** After cleaning there is no archive left anywhere, and the shown tree
      (every group's children, names and flags) is what it was. */
  lemma {:induction false} CleanEmptiesArchives(g: Group)
    ensures NoArchives(MapTree(g, CleanGroup, ()))
    ensures SameShown(MapTree(g, CleanGroup, ()), g)
    decreases g
  {
    forall i | 0 <= i < |g.subgroups| ensures NoArchives(MapTree(g.subgroups[i], CleanGroup, ())) && SameShown(MapTree(g.subgroups[i], CleanGroup, ()), g.subgroups[i]) {
      CleanEmptiesArchives(g.subgroups[i]);
    }
  }

  /** Two trees that show the same: archives aside, equal at every group. */
  predicate SameShown(a: Group, b: Group)
    decreases a
  {
    && a.hidden == b.hidden && a.name == b.name && a.open == b.open
    && a.todos == b.todos && a.completed == b.completed
    && |a.subgroups| == |b.subgroups|
    && forall i :: 0 <= i < |a.subgroups| ==> SameShown(a.subgroups[i], b.subgroups[i])
  }

  /** Cleaning twice is cleaning once. */
  lemma CleanIdempotent(g: Group)
    ensures MapTree(MapTree(g, CleanGroup, ()), CleanGroup, ()) == MapTree(g, CleanGroup, ())
  {
    MapTreeIdempotent(g, CleanGroup, ());
  }
}
