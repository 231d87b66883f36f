/**
 * The log data: an ordered forest of immutable `LogEntry` records, each of
 * which may own an ordered list of child operations (database calls, cache
 * operations, calls to external services) nested to any depth.
 */
module LogTree {

  datatype Option<T> = None | Some(value: T)

  /** A request or response payload: an arbitrary JSON document, never inspected. */
  datatype Json =
    | JNull
    | JBool(b: bool)
    | JNumber(n: real)
    | JString(s: string)
    | JArray(items: seq<Json>)
    | JObject(fields: seq<(string, Json)>)

  /** The optional `children` list of an entry: absent, or present (and possibly empty). */
  datatype Children = Absent | Present(entries: seq<LogEntry>)

  /**
   * One logged operation. `httpMethod` (the record's `method` field) is kept as the string the record carries:
   * the class lookups accept any string and fall back for names they do not know.
   */
  datatype LogEntry = LogEntry(
    id: string,
    timestamp: string,
    httpMethod: string,
    endpoint: string,
    status: int,
    duration: int,
    request: Json,
    response: Json,
    children: Children)

  /** The direct children of e in display order; an absent list reads as an empty one. */
  function Kids(e: LogEntry): (r: seq<LogEntry>)
    ensures e.children.Absent? ==> r == []
    ensures e.children.Present? ==> r == e.children.entries
    ensures forall i :: 0 <= i < |r| ==> r[i] < e
  {
    match e.children
    case Absent => []
    case Present(entries) => entries
  }

  // ---------------------------------------------------------------------------
  // Positions in a tree

  /** p is a list of child indices that leads from e down to a node of its subtree. */
  predicate ValidPath(e: LogEntry, p: seq<nat>)
    decreases |p|
  {
    p == [] || (p[0] < |Kids(e)| && ValidPath(Kids(e)[p[0]], p[1..]))
  }

  /** The node that p leads to from e. */
  function At(e: LogEntry, p: seq<nat>): LogEntry
    requires ValidPath(e, p)
    decreases |p|
  {
    if p == [] then e else At(Kids(e)[p[0]], p[1..])
  }

  /** A path that starts with child i continues inside child i. */
  lemma ValidPathCons(e: LogEntry, i: nat, rest: seq<nat>)
    ensures ValidPath(e, [i] + rest) <==> i < |Kids(e)| && ValidPath(Kids(e)[i], rest)
    ensures ValidPath(e, [i] + rest) ==> At(e, [i] + rest) == At(Kids(e)[i], rest)
  {
  }

  /** Extending a path by one index steps to a child of the node it led to. */
  lemma {:induction false} ValidPathSnoc(e: LogEntry, p: seq<nat>, i: nat)
    ensures ValidPath(e, p + [i]) <==> ValidPath(e, p) && i < |Kids(At(e, p))|
    ensures ValidPath(e, p + [i]) ==> At(e, p + [i]) == Kids(At(e, p))[i]
    decreases |p|
  {
    if p != [] {
      assert (p + [i])[0] == p[0] && (p + [i])[1..] == p[1..] + [i];
      if p[0] < |Kids(e)| {
        ValidPathSnoc(Kids(e)[p[0]], p[1..], i);
      }
    }
  }

  /** Every prefix of a valid path is valid: the ancestors of a node exist. */
  lemma {:induction false} ValidPathPrefix(e: LogEntry, p: seq<nat>, k: nat)
    requires ValidPath(e, p) && k <= |p|
    ensures ValidPath(e, p[..k])
    decreases |p|
  {
    if k > 0 {
      assert p[..k][0] == p[0] && p[..k][1..] == p[1..][..k - 1];
      ValidPathPrefix(Kids(e)[p[0]], p[1..], k - 1);
    }
  }

  // ---------------------------------------------------------------------------
  // Subtree size

  /** Number of nodes in the subtree rooted at e, e itself included. */
  function Size(e: LogEntry): (n: nat)
    ensures n >= 1
    decreases e, |Kids(e)| + 1
  {
    1 + SizeFrom(e, 0)
  }

  /** Total size of the subtrees of e's children i, i+1, ... */
  function SizeFrom(e: LogEntry, i: nat): nat
    requires i <= |Kids(e)|
    decreases e, |Kids(e)| - i
  {
    if i == |Kids(e)| then 0 else Size(Kids(e)[i]) + SizeFrom(e, i + 1)
  }
}
