/** The row-to-graph projection of the DAG state view: the flat rows of the
    `event_dag JOIN event` query become a snapshot of graph nodes (a synthetic
    ROOT plus one node per event) and parent-to-child edges. */
module DagStateGraph {
  import opened Text
  import opened Decimal

  /** `parentId` as the query delivers it: NULL, or an event id. Only a
      truthy value (present and non-zero) produces an edge. */
  datatype Parent = NoParent | ParentId(id: nat)

  /** `itemId` as the query delivers it: NULL, or an item id. */
  datatype Item = NoItem | ItemId(id: nat)

  /** One row of the query; `eventType` and `value` are already rendered as
      the text the label template interpolates. */
  datatype Row = Row(parentId: Parent, eventId: nat, itemId: Item, eventType: string, value: string)

  datatype Node = Node(id: string, labelText: string)

  datatype Edge = Edge(source: string, target: string)

  datatype Snapshot = Snapshot(nodes: seq<Node>, edges: seq<Edge>)

  const RootId: string := "ROOT"

  /** The synthetic node every snapshot starts with. */
  const RootNode: Node := Node(RootId, RootId)

  /** `if (row.parentId)`: JavaScript truthiness, so a parent id of 0 is
      treated like a missing one. */
  predicate HasParent(row: Row) {
    row.parentId.ParentId? && row.parentId.id != 0
  }

  /** `(row.itemId || "").toString()`: the rendered item id, or the empty
      string when the item id is missing or 0. */
  function ItemText(item: Item): string {
    match item
    case ItemId(n) => if n != 0 then NatToDecimal(n) else ""
    case NoItem => ""
  }

  /** `.slice(-4)` of the item text: its last four characters, or all of it
      when it is shorter. */
  function ItemSuffix(item: Item): string {
    LastN(ItemText(item), 4)
  }

  /** The label template: the item suffix, then ": [<type>, <value>]". */
  function Label(row: Row): string {
    ItemSuffix(row.itemId) + ": [" + row.eventType + ", " + row.value + "]"
  }

  /** The node one row contributes. */
  function NodeFor(row: Row): Node {
    Node(NatToDecimal(row.eventId), Label(row))
  }

  /** The edge a row with a parent contributes: parent to event. */
  function EdgeFor(row: Row): Edge
    requires HasParent(row)
  {
    Edge(NatToDecimal(row.parentId.id), NatToDecimal(row.eventId))
  }

  /** The event nodes of a row sequence, appended in row order. */
  function EventNodes(rows: seq<Row>): seq<Node> {
    if rows == [] then [] else EventNodes(rows[..|rows| - 1]) + [NodeFor(rows[|rows| - 1])]
  }

  /** The edges of a row sequence, appended in row order, one for each row
      with a parent. */
  function Edges(rows: seq<Row>): seq<Edge> {
    if rows == [] then []
    else
      var last := rows[|rows| - 1];
      Edges(rows[..|rows| - 1]) + (if HasParent(last) then [EdgeFor(last)] else [])
  }

  /** The snapshot the projection is specified to return. */
  function Project(rows: seq<Row>): Snapshot {
    Snapshot([RootNode] + EventNodes(rows), Edges(rows))
  }

  /** Extending a prefix of the rows by one row appends that row's node
      and, when the row has a parent, that row's edge. */
  lemma PrefixStep(rows: seq<Row>, i: nat)
    requires i < |rows|
    ensures [RootNode] + EventNodes(rows[..i + 1]) ==
      ([RootNode] + EventNodes(rows[..i])) + [Node(NatToDecimal(rows[i].eventId), Label(rows[i]))]
    ensures HasParent(rows[i]) ==>
      Edges(rows[..i + 1]) == Edges(rows[..i]) + [Edge(NatToDecimal(rows[i].parentId.id), NatToDecimal(rows[i].eventId))]
    ensures !HasParent(rows[i]) ==> Edges(rows[..i + 1]) == Edges(rows[..i])
  {
    assert rows[..i + 1][..i] == rows[..i];
  }

  /** The query callback: seed the node list with ROOT, then for each row in
      order push its node and, when it has a parent, its edge. It reads and
      changes no state beyond its own locals. */
  method BuildSnapshot(rows: seq<Row>) returns (snapshot: Snapshot)
    ensures snapshot == Project(rows)
  {
    var nodes := [RootNode];
    var edges := [];
    for i := 0 to |rows|
      invariant nodes == [RootNode] + EventNodes(rows[..i])
      invariant edges == Edges(rows[..i])
    {
      var row := rows[i];
      PrefixStep(rows, i);
      nodes := nodes + [Node(NatToDecimal(row.eventId), Label(row))];
      if row.parentId.ParentId? && row.parentId.id != 0 {
        edges := edges + [Edge(NatToDecimal(row.parentId.id), NatToDecimal(row.eventId))];
      }
    }
    assert rows[..|rows|] == rows;
    snapshot := Snapshot(nodes, edges);
  }
}
