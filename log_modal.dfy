/**
 * The detail view of one log entry: the count of all the operations nested
 * under it, the "+N" badges on nested items, and the nested list itself, whose
 * items expand and collapse one at a time.
 */
module LogModal {
  import opened LogTree

  // ---------------------------------------------------------------------------
  // Counting nested operations

  /** `countAllChildren`: the number of entries nested under e at any depth. */
  function CountAllChildren(e: LogEntry): nat
    decreases e, |Kids(e)| + 1
  {
    if |Kids(e)| == 0 then 0 else CountFrom(e, 0, 0)
  }

  /** The `reduce` of `countAllChildren` from child i on, with running total acc. */
  function CountFrom(e: LogEntry, i: nat, acc: nat): nat
    requires i <= |Kids(e)|
    decreases e, |Kids(e)| - i
  {
    if i == |Kids(e)| then acc
    else CountFrom(e, i + 1, acc + 1 + CountAllChildren(Kids(e)[i]))
  }

  /**
   * The count is the size of e's subtree without e itself, which is also the
   * sum over e's children c of (1 + the count of c), as SizeFrom(e, 0) adds up
   * the children's subtree sizes.
   */
  lemma {:induction false} CountIsSubtreeSizeMinusOne(e: LogEntry)
    ensures CountAllChildren(e) == Size(e) - 1 == SizeFrom(e, 0)
    decreases e, |Kids(e)| + 1
  {
    CountFromIsSizeFrom(e, 0, 0);
  }

  lemma {:induction false} CountFromIsSizeFrom(e: LogEntry, i: nat, acc: nat)
    requires i <= |Kids(e)|
    ensures CountFrom(e, i, acc) == acc + SizeFrom(e, i)
    decreases e, |Kids(e)| - i
  {
    if i < |Kids(e)| {
      CountIsSubtreeSizeMinusOne(Kids(e)[i]);
      CountFromIsSizeFrom(e, i + 1, acc + 1 + CountAllChildren(Kids(e)[i]));
    }
  }

  /** Each child's subtree holds at least the child; all are single nodes exactly when none has children. */
  lemma {:induction false} SizeFromAtLeast(e: LogEntry, i: nat)
    requires i <= |Kids(e)|
    ensures SizeFrom(e, i) >= |Kids(e)| - i
    ensures SizeFrom(e, i) == |Kids(e)| - i <==> forall j :: i <= j < |Kids(e)| ==> Size(Kids(e)[j]) == 1
    decreases |Kids(e)| - i
  {
    if i < |Kids(e)| {
      SizeFromAtLeast(e, i + 1);
    }
  }

  /**
   * The deep count is at least the number of direct children, with equality
   * exactly when no child has children of its own; it is 0 exactly for an
   * entry whose list is absent or empty.
   */
  lemma CountAtLeastDirect(e: LogEntry)
    ensures CountAllChildren(e) >= |Kids(e)|
    ensures CountAllChildren(e) == |Kids(e)| <==> forall j :: 0 <= j < |Kids(e)| ==> |Kids(Kids(e)[j])| == 0
    ensures CountAllChildren(e) == 0 <==> |Kids(e)| == 0
  {
    CountIsSubtreeSizeMinusOne(e);
    SizeFromAtLeast(e, 0);
    forall j | 0 <= j < |Kids(e)|
      ensures Size(Kids(e)[j]) == 1 <==> |Kids(Kids(e)[j])| == 0
    {
      SizeFromAtLeast(Kids(e)[j], 0);
    }
  }

  /**
   * The "Child Operations (N total)" heading: present only when the log has a
   * direct child, and then N counts every nested operation.
   */
  function ChildrenHeading(log: LogEntry): (r: Option<nat>)
    ensures r.Some? <==> |Kids(log)| > 0
    ensures r.Some? ==> r.value == Size(log) - 1 && r.value >= |Kids(log)|
  {
    if |Kids(log)| > 0 then
      CountAtLeastDirect(log);
      CountIsSubtreeSizeMinusOne(log);
      Some(CountAllChildren(log))
    else None
  }

  /** The "+N" badge of a nested item: the number of its direct children, shown only when positive. */
  function PlusBadge(child: LogEntry): (r: Option<nat>)
    ensures r.Some? <==> |Kids(child)| > 0
    ensures r.Some? ==> r.value == |Kids(child)|
  {
    if |Kids(child)| > 0 then Some(|Kids(child)|) else None
  }

  // ---------------------------------------------------------------------------
  // The nested list

  /**
   * One rendered `NestedLogItem`: its position under the log (child indices
   * from the log down), the `level` it was given, and its entry.
   */
  datatype Row = Row(path: seq<nat>, level: nat, entry: LogEntry)

  /** The `isExpanded` flag of each mounted nested item, keyed by its position. */
  type Flags = map<seq<nat>, bool>

  predicate IsExpanded(m: Flags, p: seq<nat>) {
    p in m && m[p]
  }

  /**
   * The rows rendered for children i, i+1, ... of e, where e sits at position
   * base and its children get `level`: each child, then (only while the child
   * is expanded) its own children one level deeper.
   */
  function RowsFrom(e: LogEntry, base: seq<nat>, i: nat, level: nat, m: Flags): seq<Row>
    requires i <= |Kids(e)|
    decreases e, |Kids(e)| - i
  {
    if i == |Kids(e)| then []
    else
      var p := base + [i];
      [Row(p, level, Kids(e)[i])]
      + (if IsExpanded(m, p) then RowsFrom(Kids(e)[i], p, 0, level + 1, m) else [])
      + RowsFrom(e, base, i + 1, level, m)
  }

  /** The nested list of the detail view: the log's direct children at level 0. */
  function VisibleRows(log: LogEntry, m: Flags): seq<Row> {
    RowsFrom(log, [], 0, 0, m)
  }

  /** Item q of the log is on screen: it exists and every item above it is expanded. */
  predicate Mounted(log: LogEntry, m: Flags, q: seq<nat>) {
    |q| >= 1 && ValidPath(log, q) && forall k :: 1 <= k < |q| ==> IsExpanded(m, q[..k])
  }

  /** Mounted, for the subtree of e placed at position base. */
  predicate ShownUnder(e: LogEntry, base: seq<nat>, rel: seq<nat>, m: Flags) {
    |rel| >= 1 && ValidPath(e, rel) && forall k :: 1 <= k < |rel| ==> IsExpanded(m, base + rel[..k])
  }

  lemma MountedIsShownUnderRoot(log: LogEntry, m: Flags, q: seq<nat>)
    ensures Mounted(log, m, q) <==> ShownUnder(log, [], q, m)
  {
    assert forall k :: 1 <= k < |q| ==> [] + q[..k] == q[..k];
  }

  /** Some row of rows is the item at position q. */
  predicate Shows(rows: seq<Row>, q: seq<nat>) {
    exists r :: r in rows && r.path == q
  }

  /** What every row of RowsFrom(e, base, i, level, m) satisfies. */
  predicate RowFits(e: LogEntry, base: seq<nat>, i: nat, level: nat, m: Flags, r: Row) {
    && |r.path| > |base|
    && r.path[..|base|] == base
    && r.path[|base|] >= i
    && ShownUnder(e, base, r.path[|base|..], m)
    && r.entry == At(e, r.path[|base|..])
    && r.level == level + |r.path| - |base| - 1
  }

  lemma {:induction false} RowsFromSound(e: LogEntry, base: seq<nat>, i: nat, level: nat, m: Flags)
    requires i <= |Kids(e)|
    ensures forall r :: r in RowsFrom(e, base, i, level, m) ==> RowFits(e, base, i, level, m, r)
    decreases e, |Kids(e)| - i
  {
    if i < |Kids(e)| {
      var c := Kids(e)[i];
      var p := base + [i];
      RowsFromSound(e, base, i + 1, level, m);
      ValidPathCons(e, i, []);
      assert [i] + [] == [i];
      assert p[..|base|] == base && p[|base|] == i && p[|base|..] == [i];
      assert RowFits(e, base, i, level, m, Row(p, level, c));
      if IsExpanded(m, p) {
        RowsFromSound(c, p, 0, level + 1, m);
        forall r | r in RowsFrom(c, p, 0, level + 1, m)
          ensures RowFits(e, base, i, level, m, r)
        {
          var sub := r.path[|p|..];
          var rel := r.path[|base|..];
          assert r.path[..|base|] == r.path[..|p|][..|base|];
          assert r.path[|base|] == r.path[..|p|][|base|];
          assert rel == [i] + sub;
          ValidPathCons(e, i, sub);
          forall k | 1 <= k < |rel|
            ensures IsExpanded(m, base + rel[..k])
          {
            if k == 1 {
              assert base + rel[..k] == p;
            } else {
              assert base + rel[..k] == p + sub[..k - 1];
            }
          }
        }
      }
    }
  }

  lemma {:induction false} RowsFromComplete(e: LogEntry, base: seq<nat>, i: nat, level: nat, m: Flags, q: seq<nat>)
    requires i <= |Kids(e)|
    requires |q| > |base| && q[..|base|] == base && q[|base|] >= i
    requires ShownUnder(e, base, q[|base|..], m)
    ensures Shows(RowsFrom(e, base, i, level, m), q)
    decreases e, |Kids(e)| - i
  {
    var rel := q[|base|..];
    assert rel == [rel[0]] + rel[1..];
    ValidPathCons(e, rel[0], rel[1..]);
    var c := Kids(e)[i];
    var p := base + [i];
    var rows := RowsFrom(e, base, i, level, m);
    if q[|base|] == i {
      if |rel| == 1 {
        assert q == p;
        assert Row(p, level, c) in rows;
      } else {
        assert base + rel[..1] == p;
        var sub := rel[1..];
        assert q[..|p|] == p && q[|p|..] == sub;
        forall k | 1 <= k < |sub|
          ensures IsExpanded(m, p + sub[..k])
        {
          assert p + sub[..k] == base + rel[..k + 1];
        }
        RowsFromComplete(c, p, 0, level + 1, m, q);
        var r :| r in RowsFrom(c, p, 0, level + 1, m) && r.path == q;
        assert r in rows;
      }
    } else {
      RowsFromComplete(e, base, i + 1, level, m, q);
      var r :| r in RowsFrom(e, base, i + 1, level, m) && r.path == q;
      assert r in rows;
    }
  }

  /**
   * The nested list shows exactly the mounted items: an item is listed iff
   * every item above it is expanded, and each row carries the entry at its
   * position and the level |path| - 1, so the log's direct children sit at level 0.
   */
  lemma VisibleRowsAreMounted(log: LogEntry, m: Flags)
    ensures forall r :: r in VisibleRows(log, m) ==>
      Mounted(log, m, r.path) && r.level == |r.path| - 1 && r.entry == At(log, r.path)
    ensures forall q :: Shows(VisibleRows(log, m), q) <==> Mounted(log, m, q)
  {
    RowsFromSound(log, [], 0, 0, m);
    forall r | r in VisibleRows(log, m)
      ensures Mounted(log, m, r.path) && r.level == |r.path| - 1 && r.entry == At(log, r.path)
    {
      assert r.path[0..] == r.path;
      MountedIsShownUnderRoot(log, m, r.path);
    }
    forall q | Mounted(log, m, q)
      ensures Shows(VisibleRows(log, m), q)
    {
      MountedIsShownUnderRoot(log, m, q);
      assert q[0..] == q;
      RowsFromComplete(log, [], 0, 0, m, q);
    }
  }

  /** The log's direct children are always listed; nothing else sits at the top. */
  lemma TopItemsMounted(log: LogEntry, m: Flags, i: nat)
    ensures Mounted(log, m, [i]) <==> i < |Kids(log)|
  {
    ValidPathCons(log, i, []);
    assert [i] + [] == [i];
  }

  /**
   * A nested item's children are listed exactly while the item is listed and
   * expanded (and only the children it has).
   */
  lemma ChildMountedIff(log: LogEntry, m: Flags, p: seq<nat>, i: nat)
    requires |p| >= 1
    ensures Mounted(log, m, p + [i]) <==>
      Mounted(log, m, p) && IsExpanded(m, p) && i < |Kids(At(log, p))|
  {
    var q := p + [i];
    ValidPathSnoc(log, p, i);
    assert q[..|p|] == p;
    assert forall k :: 1 <= k < |p| ==> q[..k] == p[..k];
    if ValidPath(log, q) {
      ValidPathPrefix(log, q, |p|);
    }
  }

  // ---------------------------------------------------------------------------
  // Order of the nested list

  /** x comes before y in a depth-first walk: x is a proper prefix of y or branches off to an earlier child. */
  predicate PathBefore(x: seq<nat>, y: seq<nat>)
    decreases |x|
  {
    |y| > 0 && (|x| == 0 || x[0] < y[0] || (x[0] == y[0] && PathBefore(x[1..], y[1..])))
  }

  lemma {:induction false} PrefixBefore(x: seq<nat>, y: seq<nat>)
    requires |x| < |y| && y[..|x|] == x
    ensures PathBefore(x, y)
    decreases |x|
  {
    if |x| > 0 {
      assert x[0] == y[0] && y[1..][..|x| - 1] == x[1..];
      PrefixBefore(x[1..], y[1..]);
    }
  }

  lemma {:induction false} BranchBefore(x: seq<nat>, y: seq<nat>, n: nat)
    requires n < |x| && n < |y| && x[..n] == y[..n] && x[n] < y[n]
    ensures PathBefore(x, y)
    decreases n
  {
    if n > 0 {
      assert x[0] == x[..n][0] == y[..n][0] == y[0];
      assert x[1..][..n - 1] == y[1..][..n - 1];
      BranchBefore(x[1..], y[1..], n - 1);
    }
  }

  lemma {:induction false} PathBeforeIrreflexive(x: seq<nat>)
    ensures !PathBefore(x, x)
    decreases |x|
  {
    if |x| > 0 {
      PathBeforeIrreflexive(x[1..]);
    }
  }

  predicate InWalkOrder(rows: seq<Row>) {
    forall a, b :: 0 <= a < b < |rows| ==> PathBefore(rows[a].path, rows[b].path)
  }

  lemma ConcatInWalkOrder(xs: seq<Row>, ys: seq<Row>)
    requires InWalkOrder(xs) && InWalkOrder(ys)
    requires forall x, y :: x in xs && y in ys ==> PathBefore(x.path, y.path)
    ensures InWalkOrder(xs + ys)
  {
    forall a, b | 0 <= a < b < |xs + ys|
      ensures PathBefore((xs + ys)[a].path, (xs + ys)[b].path)
    {
      if b < |xs| {
        assert (xs + ys)[a] == xs[a] && (xs + ys)[b] == xs[b];
      } else if a >= |xs| {
        assert (xs + ys)[a] == ys[a - |xs|] && (xs + ys)[b] == ys[b - |xs|];
      } else {
        assert (xs + ys)[a] in xs && (xs + ys)[b] in ys;
      }
    }
  }

  /** The rows below children i, i+1, ... of e all sit under base, at a child index from i on. */
  lemma RowsFromUnder(e: LogEntry, base: seq<nat>, i: nat, level: nat, m: Flags)
    requires i <= |Kids(e)|
    ensures forall r :: r in RowsFrom(e, base, i, level, m) ==>
      |r.path| > |base| && r.path[..|base|] == base && r.path[|base|] >= i
  {
    RowsFromSound(e, base, i, level, m);
  }

  /** An item's row followed by rows of its subtree is in walk order, and all of it sits at child index i under base. */
  lemma SubtreeBlockInWalkOrder(base: seq<nat>, i: nat, level: nat, c: LogEntry, sub: seq<Row>)
    requires InWalkOrder(sub)
    requires forall y :: y in sub ==> |y.path| > |base| + 1 && y.path[..|base| + 1] == base + [i]
    ensures InWalkOrder([Row(base + [i], level, c)] + sub)
    ensures forall x :: x in [Row(base + [i], level, c)] + sub ==>
      |x.path| > |base| && x.path[..|base|] == base && x.path[|base|] == i
  {
    var p := base + [i];
    assert p[..|base|] == base && p[|base|] == i;
    forall x, y | x in [Row(p, level, c)] && y in sub
      ensures PathBefore(x.path, y.path)
    {
      PrefixBefore(p, y.path);
    }
    ConcatInWalkOrder([Row(p, level, c)], sub);
    forall x | x in sub
      ensures x.path[..|base|] == base && x.path[|base|] == i
    {
      assert x.path[..|base|] == x.path[..|p|][..|base|];
      assert x.path[|base|] == x.path[..|p|][|base|];
    }
  }

  /** Rows under child i of base, then rows under later children of base, are in walk order. */
  lemma SiblingsInWalkOrder(base: seq<nat>, i: nat, xs: seq<Row>, rest: seq<Row>)
    requires InWalkOrder(xs) && InWalkOrder(rest)
    requires forall x :: x in xs ==> |x.path| > |base| && x.path[..|base|] == base && x.path[|base|] == i
    requires forall y :: y in rest ==> |y.path| > |base| && y.path[..|base|] == base && y.path[|base|] > i
    ensures InWalkOrder(xs + rest)
  {
    forall x, y | x in xs && y in rest
      ensures PathBefore(x.path, y.path)
    {
      BranchBefore(x.path, y.path, |base|);
    }
    ConcatInWalkOrder(xs, rest);
  }

  lemma {:induction false} RowsFromInWalkOrder(e: LogEntry, base: seq<nat>, i: nat, level: nat, m: Flags)
    requires i <= |Kids(e)|
    ensures InWalkOrder(RowsFrom(e, base, i, level, m))
    decreases e, |Kids(e)| - i
  {
    if i < |Kids(e)| {
      var c := Kids(e)[i];
      var p := base + [i];
      var sub := if IsExpanded(m, p) then RowsFrom(c, p, 0, level + 1, m) else [];
      var rest := RowsFrom(e, base, i + 1, level, m);
      if IsExpanded(m, p) {
        RowsFromInWalkOrder(c, p, 0, level + 1, m);
        RowsFromUnder(c, p, 0, level + 1, m);
      }
      SubtreeBlockInWalkOrder(base, i, level, c, sub);
      RowsFromInWalkOrder(e, base, i + 1, level, m);
      RowsFromUnder(e, base, i + 1, level, m);
      SiblingsInWalkOrder(base, i, [Row(p, level, c)] + sub, rest);
    }
  }

  /**
   * The nested list follows a depth-first walk: siblings in their original
   * order, each item directly followed by its expanded subtree; so no item is listed twice.
   */
  lemma VisibleRowsInWalkOrder(log: LogEntry, m: Flags)
    ensures InWalkOrder(VisibleRows(log, m))
    ensures forall a, b :: 0 <= a < b < |VisibleRows(log, m)| ==>
      VisibleRows(log, m)[a].path != VisibleRows(log, m)[b].path
  {
    RowsFromInWalkOrder(log, [], 0, 0, m);
    forall a, b | 0 <= a < b < |VisibleRows(log, m)|
      ensures VisibleRows(log, m)[a].path != VisibleRows(log, m)[b].path
    {
      PathBeforeIrreflexive(VisibleRows(log, m)[a].path);
    }
  }

  // ---------------------------------------------------------------------------
  // The list with every item expanded

  /** If every item under base is expanded, so is child i, and every item under it. */
  lemma ExpandedUnderChild(e: LogEntry, base: seq<nat>, i: nat, m: Flags)
    requires i < |Kids(e)|
    requires forall rel {:trigger ValidPath(e, rel)} :: |rel| >= 1 && ValidPath(e, rel) ==> IsExpanded(m, base + rel)
    ensures IsExpanded(m, base + [i])
    ensures forall sub :: |sub| >= 1 && ValidPath(Kids(e)[i], sub) ==> IsExpanded(m, (base + [i]) + sub)
  {
    ValidPathCons(e, i, []);
    assert [i] + [] == [i];
    assert ValidPath(e, [i]);
    forall sub | |sub| >= 1 && ValidPath(Kids(e)[i], sub)
      ensures IsExpanded(m, (base + [i]) + sub)
    {
      var rel := [i] + sub;
      ValidPathCons(e, i, sub);
      assert ValidPath(e, rel);
      assert (base + [i]) + sub == base + rel;
    }
  }

  lemma {:induction false} FullyExpandedRowCount(e: LogEntry, base: seq<nat>, i: nat, level: nat, m: Flags)
    requires i <= |Kids(e)|
    requires forall rel {:trigger ValidPath(e, rel)} :: |rel| >= 1 && ValidPath(e, rel) ==> IsExpanded(m, base + rel)
    ensures |RowsFrom(e, base, i, level, m)| == SizeFrom(e, i)
    decreases e, |Kids(e)| - i
  {
    if i < |Kids(e)| {
      var c := Kids(e)[i];
      var p := base + [i];
      ExpandedUnderChild(e, base, i, m);
      FullyExpandedRowCount(c, p, 0, level + 1, m);
      FullyExpandedRowCount(e, base, i + 1, level, m);
    }
  }

  /** With every item expanded the nested list has exactly as many rows as the heading's total. */
  lemma HeadingCountsFullyExpandedRows(log: LogEntry, m: Flags)
    requires forall q :: |q| >= 1 && ValidPath(log, q) ==> IsExpanded(m, q)
    ensures |VisibleRows(log, m)| == CountAllChildren(log)
  {
    forall rel | |rel| >= 1 && ValidPath(log, rel)
      ensures IsExpanded(m, [] + rel)
    {
      assert [] + rel == rel;
    }
    FullyExpandedRowCount(log, [], 0, 0, m);
    CountIsSubtreeSizeMinusOne(log);
  }

  // ---------------------------------------------------------------------------
  // Expansion state

  /**
   * Every mounted item, and only a mounted item, owns a flag. React drops an
   * item's state when the item unmounts, so flags below a collapsed item are gone.
   */
  ghost predicate Consistent(log: LogEntry, m: Flags) {
    forall q :: q in m <==> Mounted(log, m, q)
  }

  predicate StrictPrefix(p: seq<nat>, q: seq<nat>) {
    |p| < |q| && q[..|p|] == p
  }

  /** q is one of the first n child positions of position p. */
  predicate ChildPosition(p: seq<nat>, q: seq<nat>, n: nat) {
    |q| == |p| + 1 && q[..|p|] == p && q[|p|] < n
  }

  /** The flags when the detail view opens: one collapsed flag per direct child. */
  function InitialFlags(log: LogEntry): Flags {
    map i: nat | i < |Kids(log)| :: [i] := false
  }

  /** A click on expanded item p: its flag turns false and every item below it unmounts. */
  function CollapseFlags(m: Flags, p: seq<nat>): Flags {
    map q | q in m && !StrictPrefix(p, q) :: if q == p then false else m[q]
  }

  /** A click on collapsed item p, which has n children: its flag turns true and the children mount collapsed. */
  function ExpandFlags(m: Flags, p: seq<nat>, n: nat): Flags {
    m[p := true] + map i: nat | i < n :: p + [i] := false
  }

  lemma InitialFlagsAt(log: LogEntry, q: seq<nat>)
    ensures q in InitialFlags(log) <==> ChildPosition([], q, |Kids(log)|)
    ensures q in InitialFlags(log) ==> !InitialFlags(log)[q]
  {
    if |q| == 1 {
      assert q == [q[0]];
    }
  }

  lemma ExpandFlagsAt(m: Flags, p: seq<nat>, n: nat, q: seq<nat>)
    ensures q in ExpandFlags(m, p, n) <==> q in m || q == p || ChildPosition(p, q, n)
    ensures q in ExpandFlags(m, p, n) ==>
      ExpandFlags(m, p, n)[q] == (if q == p then true else if ChildPosition(p, q, n) then false else m[q])
  {
    if |q| == |p| + 1 && q[..|p|] == p {
      assert q == p + [q[|p|]];
    }
    forall i: nat | i < n
      ensures ChildPosition(p, p + [i], n)
    {
      assert (p + [i])[..|p|] == p;
    }
  }

  /** A freshly opened detail view mounts exactly the direct children, all collapsed. */
  lemma InitialFlagsConsistent(log: LogEntry)
    ensures Consistent(log, InitialFlags(log))
    ensures forall q :: q in InitialFlags(log) <==> ChildPosition([], q, |Kids(log)|)
    ensures forall q :: q in InitialFlags(log) ==> !InitialFlags(log)[q]
  {
    var m := InitialFlags(log);
    forall q
      ensures q in m <==> Mounted(log, m, q)
    {
      InitialFlagsAt(log, q);
      if |q| >= 1 {
        InitialFlagsAt(log, q[..1]);
        assert q[..1] == [q[0]];
        assert q == [q[0]] + q[1..];
        ValidPathCons(log, q[0], q[1..]);
      }
    }
    forall q
      ensures q in m <==> ChildPosition([], q, |Kids(log)|)
      ensures q in m ==> !m[q]
    {
      InitialFlagsAt(log, q);
    }
  }

  /** Collapsing an expanded item keeps the flags in step with what is mounted. */
  lemma CollapsePreservesConsistency(log: LogEntry, m: Flags, p: seq<nat>)
    requires Consistent(log, m) && IsExpanded(m, p)
    ensures Consistent(log, CollapseFlags(m, p))
  {
    var m' := CollapseFlags(m, p);
    assert Mounted(log, m, p);
    forall q
      ensures q in m' <==> Mounted(log, m', q)
    {
      if StrictPrefix(p, q) {
        assert !IsExpanded(m', q[..|p|]);
      } else {
        forall k | 1 <= k < |q|
          ensures IsExpanded(m', q[..k]) <==> IsExpanded(m, q[..k])
        {
          if |p| <= k {
            assert q[..k][..|p|] == q[..|p|];
          }
        }
      }
    }
  }

  /** After expanding the mounted item p, a child position of p is mounted iff p's item has that child. */
  lemma ExpandMountsChildren(log: LogEntry, m: Flags, p: seq<nat>, q: seq<nat>)
    requires Mounted(log, m, p)
    requires |q| == |p| + 1 && q[..|p|] == p
    ensures Mounted(log, ExpandFlags(m, p, |Kids(At(log, p))|), q) <==> q[|p|] < |Kids(At(log, p))|
  {
    var n := |Kids(At(log, p))|;
    var m' := ExpandFlags(m, p, n);
    assert q == p + [q[|p|]];
    ValidPathSnoc(log, p, q[|p|]);
    forall k | 1 <= k < |q|
      ensures IsExpanded(m', q[..k])
    {
      ExpandFlagsAt(m, p, n, q[..k]);
      if k < |p| {
        assert q[..k] == p[..k];
      } else {
        assert q[..k] == p;
      }
    }
  }

  /** After expanding p, nothing two or more levels below p is mounted or flagged. */
  lemma ExpandMountsNothingDeeper(log: LogEntry, m: Flags, p: seq<nat>, q: seq<nat>)
    requires ValidPath(log, p) && forall r :: StrictPrefix(p, r) ==> r !in m
    requires |q| > |p| + 1 && q[..|p|] == p
    ensures q !in ExpandFlags(m, p, |Kids(At(log, p))|)
    ensures !Mounted(log, ExpandFlags(m, p, |Kids(At(log, p))|), q)
  {
    var n := |Kids(At(log, p))|;
    var c := q[..|p| + 1];
    assert c[..|p|] == p && c[|p|] == q[|p|] && StrictPrefix(p, c) && StrictPrefix(p, q);
    ExpandFlagsAt(m, p, n, q);
    ExpandFlagsAt(m, p, n, c);
    assert !IsExpanded(ExpandFlags(m, p, n), c);
  }

  /** Expanding p changes neither the flag nor the mounting of an item outside p's subtree. */
  lemma ExpandLeavesOthers(log: LogEntry, m: Flags, p: seq<nat>, q: seq<nat>)
    requires ValidPath(log, p) && p in m && !StrictPrefix(p, q)
    ensures q in ExpandFlags(m, p, |Kids(At(log, p))|) <==> q in m
    ensures q in m && q != p ==> ExpandFlags(m, p, |Kids(At(log, p))|)[q] == m[q]
    ensures Mounted(log, ExpandFlags(m, p, |Kids(At(log, p))|), q) <==> Mounted(log, m, q)
  {
    var n := |Kids(At(log, p))|;
    var m' := ExpandFlags(m, p, n);
    ExpandFlagsAt(m, p, n, q);
    forall k | 1 <= k < |q|
      ensures IsExpanded(m', q[..k]) <==> IsExpanded(m, q[..k])
    {
      ExpandFlagsAt(m, p, n, q[..k]);
      if |p| <= k {
        assert q[..k][..|p|] == q[..|p|];
      }
    }
  }

  /** Expanding a collapsed item keeps the flags in step with what is mounted. */
  lemma ExpandPreservesConsistency(log: LogEntry, m: Flags, p: seq<nat>)
    requires Consistent(log, m) && p in m && !m[p]
    ensures ValidPath(log, p)
    ensures forall q :: StrictPrefix(p, q) ==> q !in m
    ensures Consistent(log, ExpandFlags(m, p, |Kids(At(log, p))|))
  {
    assert Mounted(log, m, p);
    forall q | StrictPrefix(p, q)
      ensures q !in m
    {
      assert !IsExpanded(m, q[..|p|]);
    }
    var n := |Kids(At(log, p))|;
    var m' := ExpandFlags(m, p, n);
    forall q
      ensures q in m' <==> Mounted(log, m', q)
    {
      if !StrictPrefix(p, q) {
        ExpandLeavesOthers(log, m, p, q);
      } else if |q| == |p| + 1 {
        ExpandFlagsAt(m, p, n, q);
        ExpandMountsChildren(log, m, p, q);
      } else {
        ExpandMountsNothingDeeper(log, m, p, q);
      }
    }
  }

  /** What the nested list shows when nothing is expanded: the children i, i+1, ... of e, in order. */
  lemma {:induction false} CollapsedRowsFrom(e: LogEntry, base: seq<nat>, i: nat, level: nat, m: Flags)
    requires i <= |Kids(e)|
    requires forall j :: i <= j < |Kids(e)| ==> !IsExpanded(m, base + [j])
    ensures |RowsFrom(e, base, i, level, m)| == |Kids(e)| - i
    ensures forall j :: 0 <= j < |Kids(e)| - i ==>
      RowsFrom(e, base, i, level, m)[j] == Row(base + [i + j], level, Kids(e)[i + j])
    decreases |Kids(e)| - i
  {
    if i < |Kids(e)| {
      CollapsedRowsFrom(e, base, i + 1, level, m);
    }
  }

  /** A click on the mounted item at position p, as a function of the flags. */
  function ToggleFlags(log: LogEntry, m: Flags, p: seq<nat>): Flags
    requires Consistent(log, m) && p in m
  {
    assert Mounted(log, m, p);
    if m[p] then CollapseFlags(m, p) else ExpandFlags(m, p, |Kids(At(log, p))|)
  }

  /** While the flags are in step with what is mounted, the rows shown are exactly the flagged items. */
  lemma RowsMatchFlags(log: LogEntry, m: Flags)
    requires Consistent(log, m)
    ensures forall q :: Shows(VisibleRows(log, m), q) <==> q in m
  {
    VisibleRowsAreMounted(log, m);
  }

  /** Collapsing p removes p's whole subtree from the rows shown and nothing else. */
  lemma CollapseHidesSubtree(log: LogEntry, m: Flags, p: seq<nat>)
    requires Consistent(log, m) && IsExpanded(m, p)
    ensures forall q :: Shows(VisibleRows(log, ToggleFlags(log, m, p)), q) <==>
      Shows(VisibleRows(log, m), q) && !StrictPrefix(p, q)
  {
    CollapsePreservesConsistency(log, m, p);
    RowsMatchFlags(log, m);
    RowsMatchFlags(log, CollapseFlags(m, p));
  }

  /** Expanding a collapsed p adds p's direct children to the rows shown and nothing else. */
  lemma ExpandShowsChildren(log: LogEntry, m: Flags, p: seq<nat>)
    requires Consistent(log, m) && p in m && !m[p]
    ensures ValidPath(log, p)
    ensures forall q :: Shows(VisibleRows(log, ToggleFlags(log, m, p)), q) <==>
      Shows(VisibleRows(log, m), q) || ChildPosition(p, q, |Kids(At(log, p))|)
  {
    ExpandPreservesConsistency(log, m, p);
    var n := |Kids(At(log, p))|;
    RowsMatchFlags(log, m);
    RowsMatchFlags(log, ExpandFlags(m, p, n));
    forall q ensures q in ExpandFlags(m, p, n) <==> q in m || ChildPosition(p, q, n) {
      ExpandFlagsAt(m, p, n, q);
    }
  }

  /** The flags after a click collapses p and a second click expands it again. */
  function Reexpanded(log: LogEntry, m: Flags, p: seq<nat>): Flags
    requires ValidPath(log, p)
  {
    ExpandFlags(CollapseFlags(m, p), p, |Kids(At(log, p))|)
  }

  /**
   * Collapsing p leaves p flagged and collapsed, so the next click on it
   * expands it; after that, p is expanded and every flag outside p's subtree
   * is as it was before the two clicks.
   */
  lemma ReexpandKeepsOthers(log: LogEntry, m: Flags, p: seq<nat>)
    requires ValidPath(log, p) && IsExpanded(m, p)
    ensures p in CollapseFlags(m, p) && !CollapseFlags(m, p)[p]
    ensures p in Reexpanded(log, m, p) && Reexpanded(log, m, p)[p]
    ensures forall q :: !StrictPrefix(p, q) ==> (q in Reexpanded(log, m, p) <==> q in m)
    ensures forall q :: !StrictPrefix(p, q) && q in m && q != p ==> Reexpanded(log, m, p)[q] == m[q]
  {
    var n := |Kids(At(log, p))|;
    var m1 := CollapseFlags(m, p);
    ExpandFlagsAt(m1, p, n, p);
    forall q | !StrictPrefix(p, q)
      ensures q in Reexpanded(log, m, p) <==> q in m
      ensures q in m && q != p ==> Reexpanded(log, m, p)[q] == m[q]
    {
      assert q in m1 <==> q in m;
      assert !ChildPosition(p, q, n);
      ExpandFlagsAt(m1, p, n, q);
    }
  }

  /**
   * After collapsing p and expanding it again, the only flags below p are
   * those of p's direct children, and all of them are false: the state the
   * subtree had before is not restored.
   */
  lemma ReexpandShowsCollapsedChildren(log: LogEntry, m: Flags, p: seq<nat>)
    requires ValidPath(log, p) && IsExpanded(m, p)
    ensures forall q :: StrictPrefix(p, q) ==>
      (q in Reexpanded(log, m, p) <==> ChildPosition(p, q, |Kids(At(log, p))|))
    ensures forall q :: StrictPrefix(p, q) && q in Reexpanded(log, m, p) ==> !Reexpanded(log, m, p)[q]
  {
    var n := |Kids(At(log, p))|;
    forall q | StrictPrefix(p, q)
      ensures q in Reexpanded(log, m, p) <==> ChildPosition(p, q, n)
      ensures q in Reexpanded(log, m, p) ==> !Reexpanded(log, m, p)[q]
    {
      ExpandFlagsAt(CollapseFlags(m, p), p, n, q);
    }
  }

  /**
   * The nested items of an open detail view, each with the `isExpanded` flag it
   * owns while it is mounted.
   */
  class NestedList {
    const log: LogEntry
    var flags: Flags

    ghost predicate Valid()
      reads this
    {
      Consistent(log, flags)
    }

    /** The rows the nested list shows now. */
    function Rows(): seq<Row>
      reads this
    {
      VisibleRows(log, flags)
    }

    /** Opening the detail view of log: its direct children at level 0, every one collapsed. */
    constructor (log: LogEntry)
      ensures Valid() && this.log == log
      ensures flags == InitialFlags(log)
      ensures forall q :: q in flags <==> ChildPosition([], q, |Kids(log)|)
      ensures forall q :: q in flags ==> !flags[q]
      ensures |Rows()| == |Kids(log)|
      ensures forall i :: 0 <= i < |Kids(log)| ==> Rows()[i] == Row([i], 0, Kids(log)[i])
    {
      this.log := log;
      flags := InitialFlags(log);
      new;
      InitialFlagsConsistent(log);
      forall q ensures q in flags <==> ChildPosition([], q, |Kids(log)|) {
        InitialFlagsAt(log, q);
      }
      forall j | 0 <= j < |Kids(log)| ensures !IsExpanded(flags, [] + [j]) {
        InitialFlagsAt(log, [] + [j]);
      }
      CollapsedRowsFrom(log, [], 0, 0, flags);
      assert forall i :: 0 <= i < |Kids(log)| ==> [] + [0 + i] == [i];
    }

    /**
     * A click on the header of the mounted item at position p flips its flag
     * and leaves every other surviving flag alone. Collapsing unmounts the
     * items below p and drops their flags; expanding mounts p's children,
     * collapsed, whatever they were before.
     */
    method Toggle(p: seq<nat>)
      requires Valid() && p in flags
      modifies this
      ensures Valid()
      ensures flags == ToggleFlags(log, old(flags), p)
      ensures p in flags && flags[p] == !old(flags[p])
      ensures forall q :: q in flags && q in old(flags) && q != p ==> flags[q] == old(flags[q])
      ensures old(flags[p]) ==> forall q :: q in flags <==> q in old(flags) && !StrictPrefix(p, q)
      ensures !old(flags[p]) ==> ValidPath(log, p) && forall q :: q in flags <==>
        q in old(flags) || ChildPosition(p, q, |Kids(At(log, p))|)
      ensures forall q :: StrictPrefix(p, q) && q in flags ==> !flags[q]
      ensures forall q :: Shows(Rows(), q) <==> q in flags
    {
      if flags[p] {
        CollapsePreservesConsistency(log, flags, p);
        flags := CollapseFlags(flags, p);
      } else {
        ExpandPreservesConsistency(log, flags, p);
        var n := |Kids(At(log, p))|;
        var m := ExpandFlags(flags, p, n);
        forall q
          ensures q in m <==> q in flags || ChildPosition(p, q, n)
          ensures q in m && q != p ==> m[q] == if ChildPosition(p, q, n) then false else flags[q]
        {
          ExpandFlagsAt(flags, p, n, q);
        }
        flags := m;
      }
      VisibleRowsAreMounted(log, flags);
    }
  }
}
