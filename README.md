# DAG state graph: row-to-graph projection

This project models the projection at the heart of the `DagStateGraph` React
component. The component shows the causal DAG of an event log. A live query
over `event_dag JOIN event` delivers flat rows of `parentId`, `eventId`,
`itemId`, `type` and `value`. A callback turns each delivered row set into a
graph snapshot `{nodes, edges}`:

- the node list starts with a synthetic node whose id and label are both `ROOT`;
- each row, in row order, appends one node. Its id is the decimal rendering of
  `eventId`. Its label is the last (at most) four characters of the rendered
  `itemId` (or of `""` when the item id is falsy), followed by `": [<type>, <value>]"`;
- each row whose `parentId` is truthy also appends the edge `parentId -> eventId`.

The model consists of four modules:

- `Text` (`text.dfy`): `LastN`, which is JavaScript's `slice(-n)` for n > 0
  (the source only calls `slice(-4)`; `slice(-0)` would return the whole string,
  while `LastN(s, 0)` is empty).
- `Decimal` (`decimal.dfy`): `NatToDecimal`, which is `bigint.toString()`
  for unbounded non-negative integers. Its partner is `DecimalValue`, which
  reads a digit string back into a number.
- `DagStateGraph` (`dag_state_graph.dfy`): the row, node, edge and
  snapshot datatypes, the per-row projection functions and `Project`, the
  snapshot as a function of the rows. `BuildSnapshot` is the callback itself: a
  method whose `for` loop appends to local `nodes` and `edges` sequences, as the
  source's `for (const row of rows)` loop pushes onto its arrays. It is proved
  equal to `Project`.
- `DagStateGraphProperties` and `DagStateGraphExamples`: what the snapshot
  guarantees, proved about `Project`, and concrete snapshots for example rows.

JavaScript truthiness is explicit in the model. `Parent` is `NoParent` or
`ParentId(n)`. `Item` is `NoItem` or `ItemId(n)`. An id of `0` is falsy, like
`0n` and `0` in JavaScript, so it yields no edge and an empty item part.
One might expect an edge whenever the parent is non-null. The code tests
truthiness, so the model follows the code: a parent id of 0 gives no edge. The
same `||` makes an item id of 0 render as an empty item part.

`BuildSnapshot` takes no heap state and changes nothing (it has no `modifies`
clause). Its result is pinned to the function `Project`, so the same rows
always give the same snapshot.

## Model

| member | source | states |
|---|---|---|
| `Text.LastN` | components/lww-vs-dag/DagStateGraph.tsx:52 | for n > 0, `slice(-n)` has length min(length, n): it never pads and never fails (line 52 uses n = 4) |
| `Text.LastNIsSuffix` | components/lww-vs-dag/DagStateGraph.tsx:52 | for n > 0, the result of `slice(-n)` is the suffix of the string of that length |
| `Text.LastNWhole` | components/lww-vs-dag/DagStateGraph.tsx:52 | a string no longer than n is returned whole |
| `Text.LastNAppend` | components/lww-vs-dag/DagStateGraph.tsx:52 | the last n characters of s followed by c are the last n - 1 characters of s, then c |
| `Decimal.NatToDecimal` | components/lww-vs-dag/DagStateGraph.tsx:51 | `toString` of a bigint id is non-empty, all digits, and has no leading zero except for "0" itself |
| `Decimal.DecimalRoundTrip` | components/lww-vs-dag/DagStateGraph.tsx:51 | reading the rendering of any id back gives the id, with no bound at 2^53 (ids are bigints) |
| `Decimal.CanonicalIsRendering` | components/lww-vs-dag/DagStateGraph.tsx:51 | every canonical digit string is the rendering of the number it denotes (the other direction of the round trip) |
| `Decimal.NatToDecimalInjective` | components/lww-vs-dag/DagStateGraph.tsx:51 | two ids render to the same string if and only if they are equal |
| `Decimal.DecimalLength` | components/lww-vs-dag/DagStateGraph.tsx:52 | a rendering has at most k digits exactly when the number is below 10^k, which decides whether `slice(-4)` truncates |
| `Decimal.LastDigitsValue` | components/lww-vs-dag/DagStateGraph.tsx:52 | the last k characters of a rendering are digits denoting the number modulo 10^k |
| `Decimal.LowDigitCharsIsSuffix` | components/lww-vs-dag/DagStateGraph.tsx:51-52 | the last k characters of a rendering are its k low digits, produced by repeated division by ten |
| `DagStateGraph.BuildSnapshot` | components/lww-vs-dag/DagStateGraph.tsx:29-71 | the loop that seeds ROOT and pushes one node per row and an edge per row with a truthy parent returns exactly `Project(rows)` |
| `DagStateGraphProperties.EventNodesLength` | components/lww-vs-dag/DagStateGraph.tsx:48-56 | the loop appends exactly one event node per row |
| `DagStateGraphProperties.EventNodeAt` | components/lww-vs-dag/DagStateGraph.tsx:48-56 | the i-th appended event node is the node of the i-th row |
| `DagStateGraphProperties.NodesFollowRows` | components/lww-vs-dag/DagStateGraph.tsx:39-56 | the snapshot has \|rows\| + 1 nodes; node 0 is {ROOT, ROOT}; node i+1 has the rendered event id and the label of row i, with no sorting or deduplication, whether or not the row has a parent |
| `DagStateGraphProperties.EventIdIsNotRoot` | components/lww-vs-dag/DagStateGraph.tsx:42-51 | no rendered event id equals "ROOT" |
| `DagStateGraphProperties.RootIsUnique` | components/lww-vs-dag/DagStateGraph.tsx:39-51 | a node has id "ROOT" if and only if it is the first node |
| `DagStateGraphProperties.NodeIdsUniqueIff` | components/lww-vs-dag/DagStateGraph.tsx:42-51 | node ids are pairwise distinct if and only if the rows' event ids are |
| `DagStateGraphProperties.EdgesAppend` | components/lww-vs-dag/DagStateGraph.tsx:48-65 | the edges of two concatenated row sequences are the edges of each, in order |
| `DagStateGraphProperties.EdgeCount` | components/lww-vs-dag/DagStateGraph.tsx:57-64 | the number of edges equals the number of rows with a truthy parent |
| `DagStateGraphProperties.EdgesFollowParentedRows` | components/lww-vs-dag/DagStateGraph.tsx:57-63 | the k-th edge is {source: rendered parent, target: rendered event} of the k-th row with a truthy parent; those rows are taken in increasing row order; a row is among them if and only if its parent is truthy |
| `DagStateGraphProperties.EdgeTargetsAreNodes` | components/lww-vs-dag/DagStateGraph.tsx:49-63 | every edge target is the id of an event node of the same snapshot |
| `DagStateGraphProperties.RootHasNoEdges` | components/lww-vs-dag/DagStateGraph.tsx:39-64 | no edge has ROOT as source or target: rows without a parent are not linked to ROOT |
| `DagStateGraphProperties.ParentedRowHasEdge` | components/lww-vs-dag/DagStateGraph.tsx:57-63 | every row with a truthy parent contributes its parent-to-event edge, whatever the other rows are |
| `DagStateGraphProperties.OneEdgePerParentedRow` | components/lww-vs-dag/DagStateGraph.tsx:57-63 | with unique event ids: some edge targets a row's id if and only if the row has a truthy parent, that edge is the row's own parent-to-event edge, and no two edges share a target |
| `DagStateGraphProperties.ItemSuffixDigits` | components/lww-vs-dag/DagStateGraph.tsx:52 | the item part of a label is at most 4 digits: empty for a missing or 0 item id, the whole rendering below 10000, otherwise exactly 4 digits denoting the id modulo 10000 |
| `DagStateGraphExamples.LongItemIdNode` | components/lww-vs-dag/DagStateGraph.tsx:49-54 | the row {eventId 123, itemId 9876543210, create, x} gives the node {id "123", label "3210: [create, x]"} |
| `DagStateGraphExamples.ThreeDigitRendering` | components/lww-vs-dag/DagStateGraph.tsx:51 | 123 renders as "123" |
| `DagStateGraphExamples.LongItemIdLabel` | components/lww-vs-dag/DagStateGraph.tsx:52-54 | item id 9876543210 gives the label "3210: [create, x]" |
| `DagStateGraphExamples.LongItemSuffix` | components/lww-vs-dag/DagStateGraph.tsx:52 | the item part for item id 9876543210 is "3210" |
| `DagStateGraphExamples.LongItemLowDigits` | components/lww-vs-dag/DagStateGraph.tsx:52 | the four low digits of 9876543210 are "3210" |
| `DagStateGraphExamples.TenDigitRendering` | components/lww-vs-dag/DagStateGraph.tsx:51 | 9876543210 renders as "9876543210" |
| `DagStateGraphExamples.AboveDoublePrecisionRendering` | components/lww-vs-dag/DagStateGraph.tsx:51 | 2^53 + 1 = 9007199254740993, which a double cannot hold, renders digit for digit as "9007199254740993" |
| `DagStateGraphExamples.MissingItemLabel` | components/lww-vs-dag/DagStateGraph.tsx:52-54 | a missing item id gives the label ": [create, x]" |
| `DagStateGraphExamples.ShortItemIdLabel` | components/lww-vs-dag/DagStateGraph.tsx:52-54 | item id 42 is kept whole: "42: [set, 1]" |
| `DagStateGraphExamples.ShortItemSuffix` | components/lww-vs-dag/DagStateGraph.tsx:52 | the item part for item id 42 is "42" |
| `DagStateGraphExamples.NoParentExample` | components/lww-vs-dag/DagStateGraph.tsx:48-64 | a parentless row gives the snapshot {ROOT, {"5", ": [create, y]"}} with no edge; a parent id of 0 gives no edge either |
| `DagStateGraphExamples.RefreshExample` | components/lww-vs-dag/DagStateGraph.tsx:29-71 | a parentless event and its child give 3 nodes and the edge 1 -> 2; adding a second child gives 4 nodes and the edges 1 -> 2, 1 -> 3 |

## Left out

- The SQL query and the live `useQuery` subscription (DagStateGraph.tsx:18-28, 72). Rows are the method's input; persistence and re-delivery on change are I/O.
- Plugin registration with cytoscape at load time (lines 8-9). It is a side effect inside a foreign library.
- Constructing cytoscape, its styles, the dagre layout and the HTML label overlay (lines 78-127). These are calls into rendering libraries whose code is not part of this model.
- The sync effect that removes all elements, adds the snapshot, runs the layout, and centres and fits the view (lines 129-140). It only wraps cytoscape calls, guarded by `if (!cy) return`.
- The React state (`cy`, the unused `lastChart`), the mount ref, and the JSX viewport and overlay (lines 74-77, 142-171). These are UI.
- JavaScript stringification of `type` and of the untyped `value` inside the template literal (for example `null` becoming "null"). Both are modelled as already-rendered strings.
- The unused `text` column in the row type (line 36).
- Negative identifiers. Ids are modelled as non-negative integers, so the `-` sign of a negative bigint's `toString` is not modelled.
- `parentId` values that are JavaScript numbers (it is typed `any`). The model renders every parent id exactly, as a bigint renders. A float above 2^53 would have lost precision before `toString`.
- Truthy non-numeric parent or item values, such as a non-empty string. The query delivers integers or NULL, and only those are modelled.
