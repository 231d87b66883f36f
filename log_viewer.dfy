/**
 * The log list: the search over root entries, the statistics bar, the
 * per-entry children label, and the two state slots of the list component
 * (the search query and the log whose detail view is open).
 */
module LogViewer {
  import opened Text
  import opened LogTree
  import LogModal

  // ---------------------------------------------------------------------------
  // Search

  /**
   * The search predicate on one root entry: the query, lower-cased, occurs in
   * the lower-cased endpoint, method or id, or the query as typed occurs in the
   * decimal form of the status code. Children are not consulted.
   */
  predicate Matches(log: LogEntry, query: string) {
    Includes(Lower(log.endpoint), Lower(query))
    || Includes(Lower(log.httpMethod), Lower(query))
    || Includes(DecimalString(log.status), query)
    || Includes(Lower(log.id), Lower(query))
  }

  /** The search callback for a query, as handed to `filter`. */
  function Search(query: string): LogEntry -> bool {
    e => Matches(e, query)
  }

  /** `Array.prototype.filter` with callback keep: the entries keep accepts, in list order. */
  function Filter(logs: seq<LogEntry>, keep: LogEntry -> bool): (r: seq<LogEntry>)
    ensures |r| <= |logs|
    ensures forall e :: e in r <==> e in logs && keep(e)
  {
    if logs == [] then []
    else (if keep(logs[0]) then [logs[0]] else []) + Filter(logs[1..], keep)
  }

  /** `filteredLogs`: the root entries the search keeps, in list order. */
  function FilterLogs(logs: seq<LogEntry>, query: string): (r: seq<LogEntry>)
    ensures |r| <= |logs|
    ensures forall e :: e in r <==> e in logs && Matches(e, query)
  {
    Filter(logs, Search(query))
  }

  /** Positions i, i+1, ... of the entries keep accepts, ascending. */
  function KeptFrom(logs: seq<LogEntry>, keep: LogEntry -> bool, i: nat): seq<nat>
    requires i <= |logs|
    decreases |logs| - i
  {
    if i == |logs| then []
    else (if keep(logs[i]) then [i] else []) + KeptFrom(logs, keep, i + 1)
  }

  /** Positions of all entries the search for query keeps. */
  function Kept(logs: seq<LogEntry>, query: string): seq<nat> {
    KeptFrom(logs, Search(query), 0)
  }

  /** The kept positions from i on are ascending, lie in [i, |logs|), and are exactly the accepted ones. */
  lemma {:induction false} KeptFromPositions(logs: seq<LogEntry>, keep: LogEntry -> bool, i: nat)
    requires i <= |logs|
    ensures forall k :: 0 <= k < |KeptFrom(logs, keep, i)| ==> i <= KeptFrom(logs, keep, i)[k] < |logs|
    ensures forall k, l :: 0 <= k < l < |KeptFrom(logs, keep, i)| ==>
      KeptFrom(logs, keep, i)[k] < KeptFrom(logs, keep, i)[l]
    ensures forall j :: j in KeptFrom(logs, keep, i) <==> i <= j < |logs| && keep(logs[j])
    decreases |logs| - i
  {
    if i < |logs| {
      KeptFromPositions(logs, keep, i + 1);
    }
  }

  /** The filter of the list from position i on reads the list at the kept positions from i on. */
  lemma {:induction false} FilterFromKeptPositions(logs: seq<LogEntry>, keep: LogEntry -> bool, i: nat)
    requires i <= |logs|
    ensures |Filter(logs[i..], keep)| == |KeptFrom(logs, keep, i)|
    ensures forall k :: 0 <= k < |KeptFrom(logs, keep, i)| ==>
      KeptFrom(logs, keep, i)[k] < |logs| && Filter(logs[i..], keep)[k] == logs[KeptFrom(logs, keep, i)[k]]
    decreases |logs| - i
  {
    KeptFromPositions(logs, keep, i);
    if i < |logs| {
      var kept := KeptFrom(logs, keep, i + 1);
      var shown := Filter(logs[i + 1..], keep);
      assert logs[i..][0] == logs[i] && logs[i..][1..] == logs[i + 1..];
      FilterFromKeptPositions(logs, keep, i + 1);
      if keep(logs[i]) {
        assert KeptFrom(logs, keep, i) == [i] + kept;
        assert Filter(logs[i..], keep) == [logs[i]] + shown;
      } else {
        assert KeptFrom(logs, keep, i) == kept;
        assert Filter(logs[i..], keep) == shown;
      }
    }
  }

  /**
   * The search result is the subsequence of the list at the kept positions:
   * order is preserved, and a position is kept exactly when its entry matches.
   */
  lemma FilterIsSubsequence(logs: seq<LogEntry>, query: string)
    ensures |FilterLogs(logs, query)| == |Kept(logs, query)|
    ensures forall k :: 0 <= k < |Kept(logs, query)| ==>
      Kept(logs, query)[k] < |logs| && FilterLogs(logs, query)[k] == logs[Kept(logs, query)[k]]
    ensures forall k, l :: 0 <= k < l < |Kept(logs, query)| ==> Kept(logs, query)[k] < Kept(logs, query)[l]
    ensures forall j: nat :: j in Kept(logs, query) <==> j < |logs| && Matches(logs[j], query)
  {
    assert logs[0..] == logs;
    KeptFromPositions(logs, Search(query), 0);
    FilterFromKeptPositions(logs, Search(query), 0);
  }

  /** Filtering with two callbacks that agree on every entry of the list gives the same result. */
  lemma {:induction false} FilterAgrees(logs: seq<LogEntry>, keep1: LogEntry -> bool, keep2: LogEntry -> bool)
    requires forall k :: 0 <= k < |logs| ==> keep1(logs[k]) == keep2(logs[k])
    ensures Filter(logs, keep1) == Filter(logs, keep2)
  {
    if logs != [] {
      assert forall k :: 0 <= k < |logs[1..]| ==> logs[1..][k] == logs[k + 1];
      FilterAgrees(logs[1..], keep1, keep2);
    }
  }

  /** An empty search box shows the whole list, in its original order. */
  lemma {:induction false} EmptyQueryKeepsAll(logs: seq<LogEntry>)
    ensures FilterLogs(logs, "") == logs
  {
    if logs != [] {
      assert Lower("") == "";
      IncludesEmpty(Lower(logs[0].endpoint));
      EmptyQueryKeepsAll(logs[1..]);
    }
  }

  /** Queries that differ only in ASCII letter case match the same entries. */
  lemma MatchesIgnoresCase(log: LogEntry, q1: string, q2: string)
    requires Lower(q1) == Lower(q2)
    ensures Matches(log, q1) <==> Matches(log, q2)
  {
    LetterFreeIgnoresCase(DecimalString(log.status), q1);
    LetterFreeIgnoresCase(DecimalString(log.status), q2);
  }

  /** Queries that differ only in ASCII letter case give the same result. */
  lemma FilterIgnoresCase(logs: seq<LogEntry>, q1: string, q2: string)
    requires Lower(q1) == Lower(q2)
    ensures FilterLogs(logs, q1) == FilterLogs(logs, q2)
  {
    forall k | 0 <= k < |logs|
      ensures Search(q1)(logs[k]) == Search(q2)(logs[k])
    {
      MatchesIgnoresCase(logs[k], q1, q2);
    }
    FilterAgrees(logs, Search(q1), Search(q2));
  }

  /** Two lists whose entries agree on every field except possibly `children`. */
  predicate SameRoots(logs: seq<LogEntry>, others: seq<LogEntry>) {
    |logs| == |others| && forall i :: 0 <= i < |logs| ==> others[i] == logs[i].(children := others[i].children)
  }

  /** Only root fields are searched: changing any entry's children never changes which positions are kept. */
  lemma {:induction false} FilterIgnoresChildren(logs: seq<LogEntry>, others: seq<LogEntry>, query: string, i: nat)
    requires SameRoots(logs, others) && i <= |logs|
    ensures KeptFrom(logs, Search(query), i) == KeptFrom(others, Search(query), i)
    decreases |logs| - i
  {
    if i < |logs| {
      assert Matches(logs[i], query) <==> Matches(others[i], query);
      FilterIgnoresChildren(logs, others, query, i + 1);
    }
  }

  // ---------------------------------------------------------------------------
  // Statistics

  /** The `reduce` behind the "child operations" figure: a left fold adding each root's direct-children count. */
  function FoldChildCounts(logs: seq<LogEntry>, acc: nat): nat {
    if logs == [] then acc else FoldChildCounts(logs[1..], acc + |Kids(logs[0])|)
  }

  /** `totalChildren` of the list. */
  function TotalChildren(logs: seq<LogEntry>): nat {
    FoldChildCounts(logs, 0)
  }

  /** Sum over the roots of their direct-children counts, an absent list counting as 0. */
  function SumDirectChildren(logs: seq<LogEntry>): nat {
    if logs == [] then 0 else |Kids(logs[0])| + SumDirectChildren(logs[1..])
  }

  lemma {:induction false} FoldIsSum(logs: seq<LogEntry>, acc: nat)
    ensures FoldChildCounts(logs, acc) == acc + SumDirectChildren(logs)
  {
    if logs != [] {
      FoldIsSum(logs[1..], acc + |Kids(logs[0])|);
    }
  }

  /** The "child operations" figure counts only the direct children of each root. */
  lemma TotalIsSumOfDirectChildren(logs: seq<LogEntry>)
    ensures TotalChildren(logs) == SumDirectChildren(logs)
  {
    FoldIsSum(logs, 0);
  }

  /** Sum over the roots of the detail view's recursive descendant count. */
  function SumAllDescendants(logs: seq<LogEntry>): nat {
    if logs == [] then 0 else LogModal.CountAllChildren(logs[0]) + SumAllDescendants(logs[1..])
  }

  /**
   * The list's figure never exceeds the descendant counts the detail views
   * show, and equals their sum exactly when no root has grandchildren.
   */
  lemma TotalAtMostDescendants(logs: seq<LogEntry>)
    ensures TotalChildren(logs) <= SumAllDescendants(logs)
    ensures TotalChildren(logs) == SumAllDescendants(logs) <==>
      forall i :: 0 <= i < |logs| ==> LogModal.CountAllChildren(logs[i]) == |Kids(logs[i])|
  {
    TotalIsSumOfDirectChildren(logs);
    SumBelowDescendants(logs);
  }

  lemma {:induction false} SumBelowDescendants(logs: seq<LogEntry>)
    ensures SumDirectChildren(logs) <= SumAllDescendants(logs)
    ensures SumDirectChildren(logs) == SumAllDescendants(logs) <==>
      forall i :: 0 <= i < |logs| ==> LogModal.CountAllChildren(logs[i]) == |Kids(logs[i])|
  {
    if logs != [] {
      LogModal.CountAtLeastDirect(logs[0]);
      SumBelowDescendants(logs[1..]);
      if forall i :: 0 <= i < |logs[1..]| ==> LogModal.CountAllChildren(logs[1..][i]) == |Kids(logs[1..][i])| {
        if LogModal.CountAllChildren(logs[0]) == |Kids(logs[0])| {
          forall i | 0 <= i < |logs| ensures LogModal.CountAllChildren(logs[i]) == |Kids(logs[i])| {
            if i > 0 {
              assert logs[i] == logs[1..][i - 1];
            }
          }
        }
      } else {
        var i :| 0 <= i < |logs[1..]| && LogModal.CountAllChildren(logs[1..][i]) != |Kids(logs[1..][i])|;
        assert logs[1..][i] == logs[i + 1];
      }
    }
  }

  /** The statistics bar and the empty-result message. */
  datatype Stats = Stats(parents: nat, childOperations: nat, filtered: nat, noResults: bool)

  function StatsOf(logs: seq<LogEntry>, query: string): (s: Stats)
    ensures s.parents == |logs|
    ensures s.childOperations == SumDirectChildren(logs)
    ensures s.filtered == |FilterLogs(logs, query)| == |Kept(logs, query)|
    ensures s.filtered <= s.parents
    ensures s.noResults <==> forall e :: e in logs ==> !Matches(e, query)
  {
    TotalIsSumOfDirectChildren(logs);
    FilterIsSubsequence(logs, query);
    var shown := FilterLogs(logs, query);
    assert shown != [] ==> shown[0] in shown;
    Stats(|logs|, TotalChildren(logs), |shown|, |shown| == 0)
  }

  // ---------------------------------------------------------------------------
  // Children label of a list row

  datatype ChildLabel = ChildLabel(count: nat, noun: string)

  const Noun := "child operation"

  /** The "N child operation(s)" label of a row: shown only for an entry with children. */
  function ChildrenLabel(log: LogEntry): (r: LogTree.Option<ChildLabel>)
    ensures r.Some? <==> |Kids(log)| > 0
    ensures r.Some? ==> r.value.count == |Kids(log)|
    ensures r.Some? ==> |r.value.noun| >= |Noun| && r.value.noun[..|Noun|] == Noun
    ensures r.Some? ==> (r.value.noun[|r.value.noun| - 1] == 's' <==> r.value.count != 1)
  {
    var n := |Kids(log)|;
    if n > 0 then Some(ChildLabel(n, Noun + (if n != 1 then "s" else ""))) else None
  }

  // ---------------------------------------------------------------------------
  // The list component's state

  /** The list component: its fixed input, the search box, and the open detail view if any. */
  class ViewerState {
    const logs: seq<LogEntry>
    var searchQuery: string
    var selectedLog: Option<LogEntry>
    /** The nested-item state of the open detail view; it exists exactly while a log is selected. */
    var details: LogModal.NestedList?

    ghost predicate Valid()
      reads this, details
    {
      (selectedLog.Some? <==> details != null)
      && (details != null ==> details.log == selectedLog.value && details.Valid())
    }

    /** The rows the list shows. */
    function Shown(): seq<LogEntry>
      reads this
    {
      FilterLogs(logs, searchQuery)
    }

    /** The list on first render: empty search, every root shown, no detail view. */
    constructor (logs: seq<LogEntry>)
      ensures Valid()
      ensures this.logs == logs && searchQuery == "" && selectedLog == None && details == null
      ensures Shown() == logs
    {
      this.logs := logs;
      searchQuery := "";
      selectedLog := None;
      details := null;
      new;
      EmptyQueryKeepsAll(logs);
    }

    /** Typing in the search box replaces the query; the open detail view, if any, stays. */
    method SetSearchQuery(query: string)
      requires Valid()
      modifies this
      ensures Valid()
      ensures searchQuery == query
      ensures selectedLog == old(selectedLog) && details == old(details)
      ensures forall e :: e in Shown() <==> e in logs && Matches(e, query)
    {
      searchQuery := query;
    }

    /**
     * A click (or keyboard activation) on the i-th shown row selects its entry.
     * Selecting the entry already open changes nothing; selecting another one
     * opens a detail view with every direct child collapsed at level 0.
     */
    method Select(i: nat)
      requires Valid() && i < |Shown()|
      modifies this
      ensures Valid()
      ensures selectedLog == Some(old(Shown())[i])
      ensures selectedLog.value in logs && Matches(selectedLog.value, searchQuery)
      ensures searchQuery == old(searchQuery)
      ensures old(selectedLog) == selectedLog ==> details == old(details)
      ensures old(selectedLog) != selectedLog ==>
        (fresh(details)
         && details.flags == LogModal.InitialFlags(selectedLog.value)
         && details.Rows() == LogModal.VisibleRows(selectedLog.value, LogModal.InitialFlags(selectedLog.value))
         && |details.Rows()| == |Kids(selectedLog.value)|)
    {
      var log := Shown()[i];
      assert log in Shown();
      if selectedLog != Some(log) {
        var d := new LogModal.NestedList(log);
        selectedLog := Some(log);
        details := d;
      }
    }

    /** A click on a nested item's header inside the open detail view. */
    method ToggleItem(p: seq<nat>)
      requires Valid() && details != null && p in details.flags
      modifies details
      ensures Valid()
      ensures details.flags == LogModal.ToggleFlags(details.log, old(details.flags), p)
      ensures forall q :: LogModal.Shows(details.Rows(), q) <==> q in details.flags
    {
      details.Toggle(p);
    }

    /** The close button or a click on the backdrop: the detail view unmounts with its nested state. */
    method Close()
      requires Valid()
      modifies this
      ensures Valid()
      ensures selectedLog == None && details == null
      ensures searchQuery == old(searchQuery)
    {
      selectedLog := None;
      details := null;
    }
  }
}
