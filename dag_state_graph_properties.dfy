/** What the row-to-graph projection guarantees: node count and order, the
    unique ROOT node, unique node ids, exactly the edges of rows with a
    parent (in row order), edge targets that are nodes, and the label format. */
module DagStateGraphProperties {
  import opened Text
  import opened Decimal
  import opened DagStateGraph

  predicate DistinctEventIds(rows: seq<Row>) {
    forall i, j :: 0 <= i < j < |rows| ==> rows[i].eventId != rows[j].eventId
  }

  predicate DistinctNodeIds(nodes: seq<Node>) {
    forall j, k :: 0 <= j < k < |nodes| ==> nodes[j].id != nodes[k].id
  }

  /** Number of rows with a parent, counted from the front. */
  function CountParented(rows: seq<Row>): nat {
    if rows == [] then 0 else (if HasParent(rows[0]) then 1 else 0) + CountParented(rows[1..])
  }

  /** Positions of the rows with a parent, in increasing order. */
  function ParentedIndices(rows: seq<Row>): seq<nat> {
    if rows == [] then []
    else ParentedIndices(rows[..|rows| - 1]) + (if HasParent(rows[|rows| - 1]) then [|rows| - 1] else [])
  }

  /** One event node per row. */
  lemma {:induction false} EventNodesLength(rows: seq<Row>)
    ensures |EventNodes(rows)| == |rows|
  {
    if rows != [] {
      EventNodesLength(rows[..|rows| - 1]);
    }
  }

  /** The i-th row gives the i-th event node. */
  lemma {:induction false} EventNodeAt(rows: seq<Row>, i: nat)
    requires i < |rows|
    ensures |EventNodes(rows)| == |rows| && EventNodes(rows)[i] == NodeFor(rows[i])
  {
    var init := rows[..|rows| - 1];
    EventNodesLength(init);
    assert EventNodes(rows) == EventNodes(init) + [NodeFor(rows[|rows| - 1])];
    if i < |init| {
      EventNodeAt(init, i);
      assert EventNodes(rows)[i] == EventNodes(init)[i];
      assert init[i] == rows[i];
    }
  }

  /** The snapshot has |rows| + 1 nodes: ROOT first, then the rows' nodes in
      row order (no sorting, no deduplication); a row without a parent still
      has its node. */
  lemma NodesFollowRows(rows: seq<Row>)
    ensures |Project(rows).nodes| == |rows| + 1
    ensures Project(rows).nodes[0] == Node("ROOT", "ROOT")
    ensures forall i :: 0 <= i < |rows| ==>
      Project(rows).nodes[i + 1].id == NatToDecimal(rows[i].eventId) &&
      Project(rows).nodes[i + 1].labelText == Label(rows[i])
  {
    var nodes := Project(rows).nodes;
    EventNodesLength(rows);
    forall i | 0 <= i < |rows| ensures nodes[i + 1] == NodeFor(rows[i]) {
      EventNodeAt(rows, i);
      assert nodes[i + 1] == EventNodes(rows)[i];
    }
  }

  /** No event id renders as "ROOT": renderings are digit strings. */
  lemma EventIdIsNotRoot(n: nat)
    ensures NatToDecimal(n) != RootId
  {
    var s := NatToDecimal(n);
    assert IsDigit(s[0]);
  }

  /** Exactly one node, the first, has the id "ROOT". */
  lemma RootIsUnique(rows: seq<Row>)
    ensures forall j :: 0 <= j < |Project(rows).nodes| ==> (Project(rows).nodes[j].id == RootId <==> j == 0)
  {
    var nodes := Project(rows).nodes;
    NodesFollowRows(rows);
    forall j | 0 < j < |nodes| ensures nodes[j].id != RootId {
      assert nodes[j].id == NatToDecimal(rows[j - 1].eventId);
      EventIdIsNotRoot(rows[j - 1].eventId);
    }
  }

  /** Node ids are unique exactly when the rows' event ids are. */
  lemma NodeIdsUniqueIff(rows: seq<Row>)
    ensures DistinctNodeIds(Project(rows).nodes) <==> DistinctEventIds(rows)
  {
    var nodes := Project(rows).nodes;
    NodesFollowRows(rows);
    RootIsUnique(rows);
    if DistinctEventIds(rows) {
      forall j, k | 0 <= j < k < |nodes| ensures nodes[j].id != nodes[k].id {
        if j > 0 {
          NatToDecimalInjective(rows[j - 1].eventId, rows[k - 1].eventId);
        }
      }
    }
    if DistinctNodeIds(nodes) {
      forall i, j | 0 <= i < j < |rows| ensures rows[i].eventId != rows[j].eventId {
        assert nodes[i + 1].id != nodes[j + 1].id;
      }
    }
  }

  /** Edges of a concatenation are the edges of each part, in order. */
  lemma {:induction false} EdgesAppend(a: seq<Row>, b: seq<Row>)
    ensures Edges(a + b) == Edges(a) + Edges(b)
    decreases |b|
  {
    if b == [] {
      assert a + b == a;
    } else {
      var b' := b[..|b| - 1];
      assert (a + b)[..|a + b| - 1] == a + b';
      EdgesAppend(a, b');
    }
  }

  /** There is one edge per row with a parent. */
  lemma {:induction false} EdgeCount(rows: seq<Row>)
    ensures |Project(rows).edges| == CountParented(rows)
    decreases |rows|
  {
    if rows != [] {
      assert rows == [rows[0]] + rows[1..];
      EdgesAppend([rows[0]], rows[1..]);
      assert [rows[0]][..0] == [];
      EdgeCount(rows[1..]);
    }
  }

  /** Each recorded position is a row with a parent, and the k-th edge is
      that row's edge. */
  lemma {:induction false} EdgesAtParentedIndices(rows: seq<Row>)
    ensures |Edges(rows)| == |ParentedIndices(rows)|
    ensures forall k :: 0 <= k < |ParentedIndices(rows)| ==>
      ParentedIndices(rows)[k] < |rows| &&
      HasParent(rows[ParentedIndices(rows)[k]]) &&
      Edges(rows)[k] == EdgeFor(rows[ParentedIndices(rows)[k]])
  {
    if rows != [] {
      var init := rows[..|rows| - 1];
      var idx, idx0 := ParentedIndices(rows), ParentedIndices(init);
      var edges, edges0 := Edges(rows), Edges(init);
      EdgesAtParentedIndices(init);
      forall k | 0 <= k < |idx0|
        ensures idx[k] < |rows| && HasParent(rows[idx[k]]) && edges[k] == EdgeFor(rows[idx[k]])
      {
        assert idx[k] == idx0[k] && edges[k] == edges0[k];
        assert init[idx0[k]] == rows[idx0[k]];
      }
    }
  }

  /** The recorded positions are strictly increasing: edges keep row order. */
  lemma {:induction false} ParentedIndicesIncrease(rows: seq<Row>)
    ensures forall k :: 0 <= k < |ParentedIndices(rows)| ==> ParentedIndices(rows)[k] < |rows|
    ensures forall k1, k2 :: 0 <= k1 < k2 < |ParentedIndices(rows)| ==>
      ParentedIndices(rows)[k1] < ParentedIndices(rows)[k2]
  {
    if rows != [] {
      var init := rows[..|rows| - 1];
      var idx, idx0 := ParentedIndices(rows), ParentedIndices(init);
      ParentedIndicesIncrease(init);
      assert forall k :: 0 <= k < |idx0| ==> idx[k] == idx0[k];
    }
  }

  /** A row's position is recorded exactly when the row has a parent. */
  lemma {:induction false} ParentedIndicesComplete(rows: seq<Row>)
    ensures forall i :: 0 <= i < |rows| ==> (HasParent(rows[i]) <==> i in ParentedIndices(rows))
  {
    if rows != [] {
      var init := rows[..|rows| - 1];
      var idx, idx0 := ParentedIndices(rows), ParentedIndices(init);
      ParentedIndicesComplete(init);
      ParentedIndicesIncrease(init);
      forall i | 0 <= i < |rows| ensures HasParent(rows[i]) <==> i in idx {
        if i < |init| {
          assert init[i] == rows[i];
          assert i in idx <==> i in idx0;
        }
      }
    }
  }

  /** The k-th edge is the edge of the k-th row with a parent: edges are
      emitted for exactly the rows whose parent is truthy, in row order. */
  lemma EdgesFollowParentedRows(rows: seq<Row>)
    ensures |Edges(rows)| == |ParentedIndices(rows)|
    ensures forall k :: 0 <= k < |ParentedIndices(rows)| ==>
      ParentedIndices(rows)[k] < |rows| &&
      HasParent(rows[ParentedIndices(rows)[k]]) &&
      Edges(rows)[k] == EdgeFor(rows[ParentedIndices(rows)[k]])
    ensures forall k1, k2 :: 0 <= k1 < k2 < |ParentedIndices(rows)| ==>
      ParentedIndices(rows)[k1] < ParentedIndices(rows)[k2]
    ensures forall i :: 0 <= i < |rows| ==> (HasParent(rows[i]) <==> i in ParentedIndices(rows))
  {
    EdgesAtParentedIndices(rows);
    ParentedIndicesIncrease(rows);
    ParentedIndicesComplete(rows);
  }

  /** Every edge points at an event node of the same snapshot. */
  lemma EdgeTargetsAreNodes(rows: seq<Row>)
    ensures forall k :: 0 <= k < |Project(rows).edges| ==>
      exists j :: 0 < j < |Project(rows).nodes| && Project(rows).nodes[j].id == Project(rows).edges[k].target
  {
    var nodes, edges := Project(rows).nodes, Project(rows).edges;
    var idx := ParentedIndices(rows);
    NodesFollowRows(rows);
    EdgesFollowParentedRows(rows);
    forall k | 0 <= k < |edges| ensures exists j :: 0 < j < |nodes| && nodes[j].id == edges[k].target {
      assert nodes[idx[k] + 1].id == edges[k].target;
    }
  }

  /** ROOT takes part in no edge: rows without a parent are not linked to it. */
  lemma RootHasNoEdges(rows: seq<Row>)
    ensures forall k :: 0 <= k < |Project(rows).edges| ==>
      Project(rows).edges[k].source != RootId && Project(rows).edges[k].target != RootId
  {
    var edges := Project(rows).edges;
    var idx := ParentedIndices(rows);
    EdgesFollowParentedRows(rows);
    forall k | 0 <= k < |edges| ensures edges[k].source != RootId && edges[k].target != RootId {
      var row := rows[idx[k]];
      EventIdIsNotRoot(row.parentId.id);
      EventIdIsNotRoot(row.eventId);
    }
  }

  /** Every row with a parent contributes its own edge, from its parent to it. */
  lemma ParentedRowHasEdge(rows: seq<Row>, i: nat)
    requires i < |rows| && HasParent(rows[i])
    ensures EdgeFor(rows[i]) in Project(rows).edges
  {
    var idx := ParentedIndices(rows);
    EdgesFollowParentedRows(rows);
    var k :| 0 <= k < |idx| && idx[k] == i;
    assert Project(rows).edges[k] == EdgeFor(rows[i]);
  }

  /** With unique event ids, a row's id is the target of some edge exactly
      when the row has a parent, and no two edges share a target: each row
      with a parent has exactly one edge, from its parent to it. */
  lemma OneEdgePerParentedRow(rows: seq<Row>)
    requires DistinctEventIds(rows)
    ensures forall i :: 0 <= i < |rows| ==>
      (HasParent(rows[i]) <==> exists k :: 0 <= k < |Project(rows).edges| && Project(rows).edges[k].target == NatToDecimal(rows[i].eventId))
    ensures forall i :: 0 <= i < |rows| && HasParent(rows[i]) ==> EdgeFor(rows[i]) in Project(rows).edges
    ensures forall k1, k2 :: 0 <= k1 < k2 < |Project(rows).edges| ==>
      Project(rows).edges[k1].target != Project(rows).edges[k2].target
  {
    var edges := Project(rows).edges;
    var idx := ParentedIndices(rows);
    EdgesFollowParentedRows(rows);
    forall k1, k2 | 0 <= k1 < k2 < |edges| ensures edges[k1].target != edges[k2].target {
      NatToDecimalInjective(rows[idx[k1]].eventId, rows[idx[k2]].eventId);
    }
    forall i | 0 <= i < |rows|
      ensures HasParent(rows[i]) <==> exists k :: 0 <= k < |edges| && edges[k].target == NatToDecimal(rows[i].eventId)
      ensures HasParent(rows[i]) ==> EdgeFor(rows[i]) in edges
    {
      if HasParent(rows[i]) {
        var k :| 0 <= k < |idx| && idx[k] == i;
        assert edges[k] == EdgeFor(rows[i]);
      }
      if exists k :: 0 <= k < |edges| && edges[k].target == NatToDecimal(rows[i].eventId) {
        var k :| 0 <= k < |edges| && edges[k].target == NatToDecimal(rows[i].eventId);
        NatToDecimalInjective(rows[idx[k]].eventId, rows[i].eventId);
        assert idx[k] == i;
      }
    }
  }

  /** The item part of a label: empty for a missing or zero item id; the
      whole rendering for an id below 10000; otherwise exactly four digits
      denoting the id modulo 10000 (zero-padded low digits). */
  lemma ItemSuffixDigits(item: Item)
    ensures |ItemSuffix(item)| <= 4 && AllDigits(ItemSuffix(item))
    ensures (item.NoItem? || item.id == 0) ==> ItemSuffix(item) == ""
    ensures item.ItemId? && 0 < item.id < 10000 ==> ItemSuffix(item) == NatToDecimal(item.id)
    ensures item.ItemId? && item.id >= 10000 ==>
      |ItemSuffix(item)| == 4 && DecimalValue(ItemSuffix(item)) == item.id % 10000
  {
    if item.ItemId? && item.id != 0 {
      var n := item.id;
      assert Pow10(4) == 10000;
      DecimalLength(n, 4);
      LastDigitsValue(n, 4);
      if n < 10000 {
        LastNWhole(NatToDecimal(n), 4);
      }
    }
  }
}
