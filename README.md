# Log viewer, modelled in Dafny

A model of the logic inside the two React components of a small request-log
viewer. The viewer shows a list of root log entries. Each entry is an HTTP
request with an id, timestamp, method, endpoint, status code, duration, JSON
request and response payloads, and an optional list of child operations,
nested to any depth. A detail view opens for a selected entry.

The model has five modules:

- `LogTree` (`log_tree.dfy`) — the `LogEntry` record. The optional `children` list is the `Children` datatype. `Kids` reads an absent list as an empty one. Nested items are named by *positions*: the list of child indices from the log down to the item.
- `Text` (`text.dfy`) — the three string operations the search uses:
  - ASCII `toLowerCase`;
  - `includes`, given both a recursive definition and a position-based one, proved equivalent;
  - the decimal form of an integer status code, proved to read back to the code.
- `Badges` (`badges.dfy`) — the style helpers of both components. Each class string is an enum tag. Each helper is proved to put the status into the right one of four disjoint ranges, or to pick the entry of the same method, falling back to GET.
- `LogModal` (`log_modal.dfy`) — the detail view:
  - the recursive descendant count and its identity with subtree size;
  - the "N total" heading and the "+N" badges;
  - the nested list as the rows of a depth-first walk that descends only into expanded items;
  - the per-item `isExpanded` flags. They are held in the class `NestedList`: a map from the position of each mounted item to its flag.
- `LogViewer` (`log_viewer.dfy`) — the list component:
  - the search filter, the statistics bar and the "N child operation(s)" label;
  - the class `ViewerState`, holding the `searchQuery` and `selectedLog` slots and the nested-list state of the open detail view.

A collapse unmounts the collapsed item's subtree, and React drops the state of an unmounted component. So `CollapseFlags` deletes every flag below the collapsed item, and a later expansion mounts the children collapsed again. Their earlier expansion states are not restored (`components/log-modal.tsx:80-118`).

## Model

| member | source | states |
|---|---|---|
| `LogTree.Kids` | components/log-viewer.tsx:17 | An absent `children` list reads as empty, a present one as itself; every child is structurally smaller than its parent. |
| `LogTree.ValidPathSnoc` | components/log-modal.tsx:110-114 | Position p+[i] exists iff p exists and its item has more than i children; that position holds the i-th child of p's item. |
| `Text.Lower` | components/log-viewer.tsx:59-62 | `toLowerCase` keeps the length and maps each A-Z to a-z (code point +32). Every other character stays as it is, and no upper-case letter remains. |
| `Text.LowerIsIdentityIff` | components/log-viewer.tsx:59-62 | Lower-casing leaves a string unchanged exactly when it holds no upper-case letter. |
| `Text.IncludesIffOccurs` | components/log-viewer.tsx:59-62 | `includes(s, q)` holds iff q equals the slice of s at some position (so every string includes ""). |
| `Text.MissingCharExcludes` | components/log-viewer.tsx:61 | A query holding a character that s lacks is not included in s. |
| `Text.LetterFreeIgnoresCase` | components/log-viewer.tsx:61 | In a string without letters, a query and its lower-case form are found alike. |
| `Text.NatString` | components/log-viewer.tsx:61 | The digits of a natural number: at least one digit and no leading zero. |
| `Text.DecimalString` | components/log-viewer.tsx:61 | `status.toString()` holds no letter and only digits, except for a leading '-', which is present iff the status is negative. |
| `Text.DecimalRoundTrip` | components/log-viewer.tsx:61 | The decimal form of a status reads back to that status, so distinct statuses print differently. |
| `Badges.StatusColor` | components/log-viewer.tsx:28-33 | The text colour is green for [200,300), orange for [400,500), red for >=500 and muted otherwise; the colour's range contains the status. |
| `Badges.StatusBadgeColorOf` | components/log-viewer.tsx:35-43 | The status badge palette is green, orange, red or gray, by the same four ranges. |
| `Badges.StatusBadgeClass` | components/log-modal.tsx:24-29 | The detail view's status class is success, warning, error or info, by the same four ranges (this also models the copy at lines 139-144). |
| `Badges.RangesDisjoint` | components/log-viewer.tsx:28-43 | The four ranges do not overlap, so each status lies in exactly one of them. |
| `Badges.StatusHelpersAgree` | components/log-modal.tsx:139-144 | The detail view's status class and both list helpers pick the same range for every status. |
| `Badges.ModalMethodClass` | components/log-modal.tsx:31-40 | A known method gets the class named after it; any other string gets the GET class. The lookup is case-sensitive. This also models the copy at lines 146-155. |
| `Badges.ViewerMethodColor` | components/log-viewer.tsx:45-55 | A known method gets its own palette; any other string gets the GET entry. |
| `Badges.MethodHelpersAgree` | components/log-modal.tsx:146-155 | Both method lookups pick the entry of the same method, and it is always one of the five known methods. |
| `LogModal.CountIsSubtreeSizeMinusOne` | components/log-modal.tsx:157-160 | `countAllChildren(e)` is the size of e's subtree minus e itself. It equals the sum, over e's children c, of the size of c's subtree, i.e. of 1 + count(c). |
| `LogModal.CountFromIsSizeFrom` | components/log-modal.tsx:159 | The `reduce` from child i with running total acc ends at acc plus the subtree sizes of children i onward. |
| `LogModal.CountAtLeastDirect` | components/log-modal.tsx:158-159 | The count is at least the number of direct children. It equals that number iff no child has children, and it is 0 iff the list is absent or empty. |
| `LogModal.ChildrenHeading` | components/log-modal.tsx:214-218 | The "N total" heading exists iff the log has a direct child. N counts every nested operation and is at least the direct-child count. |
| `LogModal.PlusBadge` | components/log-modal.tsx:73-77 | The "+N" badge exists iff the item has children, and then N is their number. |
| `LogModal.RowsFromSound` | components/log-modal.tsx:110-114 | Every row rendered below an item lies in its subtree, at a child position from i on. All items between lie on expanded rows, the row carries the entry at its position, and its level grows by one per step down. |
| `LogModal.RowsFromComplete` | components/log-modal.tsx:110-114 | Every item of the subtree whose items above it are all expanded is rendered. |
| `LogModal.VisibleRowsAreMounted` | components/log-modal.tsx:80-116 | The nested list shows an item iff every item above it is expanded. Each row has level = depth - 1 and shows the entry at its position. |
| `LogModal.TopItemsMounted` | components/log-modal.tsx:221-223 | The log's direct children are always shown, whatever the flags. |
| `LogModal.ChildMountedIff` | components/log-modal.tsx:80 | A nested item's children are shown iff the item is shown and expanded, and only the children it has. |
| `LogModal.RowsFromInWalkOrder` | components/log-modal.tsx:112-114 | The rows below an item are in depth-first order: siblings keep their order, and each item is directly followed by its expanded subtree. |
| `LogModal.VisibleRowsInWalkOrder` | components/log-modal.tsx:221-223 | The whole nested list is in depth-first order, and no item is listed twice. |
| `LogModal.FullyExpandedRowCount` | components/log-modal.tsx:110-114 | With every item expanded, the rows below children i onward number exactly their subtree sizes. |
| `LogModal.HeadingCountsFullyExpandedRows` | components/log-modal.tsx:162 | With every item expanded, the nested list has exactly as many rows as the heading's `countAllChildren` total. |
| `LogModal.CollapsedRowsFrom` | components/log-modal.tsx:221-223 | With no item expanded, the list is the direct children at level 0, in their order. |
| `LogModal.InitialFlagsConsistent` | components/log-modal.tsx:21 | When the detail view opens, the flags are exactly those of the mounted items: they sit at the direct children's positions and nowhere else, and all start false. |
| `LogModal.CollapsePreservesConsistency` | components/log-modal.tsx:49 | After a collapse, the flags still belong exactly to the mounted items. |
| `LogModal.ExpandPreservesConsistency` | components/log-modal.tsx:49 | Before an expansion, no flag exists below the collapsed item. After it, the flags still belong exactly to the mounted items. |
| `LogModal.ExpandMountsChildren` | components/log-modal.tsx:110-114 | Once p is expanded, a position one level below p is on screen iff p's entry has a child there. |
| `LogModal.ExpandMountsNothingDeeper` | components/log-modal.tsx:110-114 | Expanding p mounts nothing two or more levels below it, because p's children start collapsed. |
| `LogModal.ExpandLeavesOthers` | components/log-modal.tsx:49 | Expanding p keeps the presence and the value of the flag of every item other than p outside p's subtree, and changes the visibility of no item outside p's subtree. |
| `LogModal.RowsMatchFlags` | components/log-modal.tsx:80 | While the flags belong exactly to the mounted items, the list shows exactly the flagged positions. |
| `LogModal.CollapseHidesSubtree` | components/log-modal.tsx:80-118 | Collapsing an item removes its whole subtree from the list and nothing else. |
| `LogModal.ExpandShowsChildren` | components/log-modal.tsx:110-114 | Expanding an item adds exactly its direct children to the list. |
| `LogModal.ReexpandKeepsOthers` | components/log-modal.tsx:49 | A click collapses p and leaves it flagged and collapsed, so a second click expands it. After both, p is expanded and every flag outside p's subtree is as before. |
| `LogModal.ReexpandShowsCollapsedChildren` | components/log-modal.tsx:21 | After the collapse and the re-expansion of p, the only flags below p are those of p's direct children, and all are false. The subtree's earlier state is not restored. |
| `LogModal.NestedList.constructor` | components/log-modal.tsx:221-223 | The opened view holds one false flag per direct child and nothing else, and shows those children at level 0 in order. |
| `LogModal.NestedList.Toggle` | components/log-modal.tsx:49 | A click flips only the clicked item's flag; every other surviving flag is unchanged. A collapse drops the flags below the item; an expansion adds its children, collapsed. The rows shown stay exactly the flagged items. |
| `LogViewer.Filter` | components/log-viewer.tsx:57 | `filter` with a callback is no longer than the list and holds exactly the list's entries that the callback accepts. |
| `LogViewer.FilterLogs` | components/log-viewer.tsx:57-63 | The result is no longer than the list. It holds exactly the list's entries whose endpoint, method or id, lower-cased, includes the lower-cased query, or whose status string includes the query as typed. |
| `LogViewer.KeptFromPositions` | components/log-viewer.tsx:57 | The positions a callback accepts, from i on, are ascending and within the list, and a position is among them iff the callback accepts its entry. |
| `LogViewer.FilterFromKeptPositions` | components/log-viewer.tsx:57 | `filter` of the list from position i on is the list read at the accepted positions from i on. |
| `LogViewer.FilterAgrees` | components/log-viewer.tsx:57 | Two callbacks that agree on every entry of the list filter it alike. |
| `LogViewer.FilterIsSubsequence` | components/log-viewer.tsx:57-63 | The result is the list read at strictly ascending positions, and a position is among them iff its entry matches. So order is kept and nothing is duplicated. |
| `LogViewer.EmptyQueryKeepsAll` | components/log-viewer.tsx:57-63 | An empty query returns the whole list, in its order. |
| `LogViewer.MatchesIgnoresCase` | components/log-viewer.tsx:58-62 | Queries equal up to ASCII case match the same entry. The status string has no letters, so its case-sensitive test agrees too. |
| `LogViewer.FilterIgnoresCase` | components/log-viewer.tsx:57-63 | Queries equal up to ASCII case give the same result. |
| `LogViewer.FilterIgnoresChildren` | components/log-viewer.tsx:57-63 | Changing the children of any entry never changes which positions the search keeps. |
| `LogViewer.FoldIsSum` | components/log-viewer.tsx:65 | The `reduce` from total acc ends at acc plus the direct-children counts of all roots. |
| `LogViewer.TotalIsSumOfDirectChildren` | components/log-viewer.tsx:65 | `totalChildren` is the sum of the roots' direct-children counts, an absent list counting 0. |
| `LogViewer.TotalAtMostDescendants` | components/log-viewer.tsx:65 | The list's figure is at most the sum of the detail views' `countAllChildren`, with equality iff no root has grandchildren. |
| `LogViewer.StatsOf` | components/log-viewer.tsx:94-102 | The bar shows the number of roots and the direct-children total. It also shows the number shown: the length of the search result, which is the number of matching roots and at most the number of roots. "No logs found" appears iff no root matches (line 176). |
| `LogViewer.ChildrenLabel` | components/log-viewer.tsx:165-170 | The label appears iff the entry has children. It shows their number and ends in "s" iff that number is not 1. |
| `LogViewer.ViewerState.constructor` | components/log-viewer.tsx:25-26 | The list starts with an empty query, every root shown and no detail view. |
| `LogViewer.ViewerState.SetSearchQuery` | components/log-viewer.tsx:85 | Typing replaces the query; the shown entries are then exactly the matching roots, and the selection stays. |
| `LogViewer.ViewerState.Select` | components/log-viewer.tsx:112 | Activating a shown row selects that root, which is a matching entry of the list. If it is already selected, nothing changes (React ignores an update to an identical value). Otherwise a fresh nested list opens whose flags are exactly the initial ones: the entry's direct children, all collapsed, and nothing else. |
| `LogViewer.ViewerState.ToggleItem` | components/log-modal.tsx:49 | A click inside the open detail view toggles that item as `NestedList.Toggle` does. |
| `LogViewer.ViewerState.Close` | components/log-viewer.tsx:184 | Closing clears the selection and drops the detail view with all its nested flags; the query stays. |

## Left out

- `app/page.tsx` is not part of this model. It is static sample data with no logic.
- The JSON display (`components/json-modal.tsx`, `components/json-viewer.tsx`) is not part of this model. It is `JSON.stringify` formatting, the asynchronous clipboard API and a timer. Payloads are an opaque `Json` value that nothing inspects.
- The `jsonModal` slots of the detail view and of each nested item, with their titles (log-modal.tsx:22, 88, 100, 121-129, 135, 197, 205, 231-239), are not modelled. They only open and close the JSON display.
- Markup, CSS class strings and inline pixel styles are replaced by enum tags, or omitted. This includes the indentation that grows with `level`.
- `Text.Lower` maps only ASCII A-Z. Unicode case mapping (for example of non-ASCII letters in an endpoint) is not modelled.
- `Text.DecimalString`: the status is an integer. The JavaScript formatting of a fractional or non-finite `number` is not modelled. Integers of magnitude 10^21 or more, which JavaScript prints in exponent form such as "1e+21", are not modelled either; `Text.LetterFreeIgnoresCase`, `LogViewer.MatchesIgnoresCase` and `LogViewer.FilterIgnoresCase` rely on the status string being letter-free, so they do not hold for such statuses.
- `Badges.ModalMethodClass` and `Badges.ViewerMethodColor` treat the lookup tables as plain maps. The JavaScript prototype keys of an object literal (such as "constructor"), which `methodMap[method]` would also find, are not modelled.
- Nested items are identified by position, not by `id`. React's keyed reconciliation of siblings with duplicate ids is not modelled.
- `LogViewer.ViewerState.Select`: selecting another log while a detail view is open remounts its nested list with every item collapsed. React would reuse an item's state only if two logs shared a child id (`child.id` is the key), which unique ids exclude, so that reuse is not modelled.
- React's rendering and scheduling are not modelled. A state update takes effect at once, and the only consequence of unmounting that is kept is the loss of the nested flags.
