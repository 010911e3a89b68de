/** Concrete snapshots for example rows. */
module DagStateGraphExamples {
  import opened Text
  import opened Decimal
  import opened DagStateGraph
  import opened DagStateGraphProperties

  /** The example row {eventId 123, itemId 9876543210, create, x}: its node is
      {id: "123", label: "3210: [create, x]"}. */
  lemma LongItemIdNode()
    ensures NodeFor(Row(NoParent, 123, ItemId(9876543210), "create", "x")).id == "123"
    ensures NodeFor(Row(NoParent, 123, ItemId(9876543210), "create", "x")).labelText == "3210: [create, x]"
  {
    LongItemIdLabel();
    ThreeDigitRendering();
  }

  lemma ThreeDigitRendering()
    ensures NatToDecimal(123) == "123"
  {
    RenderAppendDigit(1, 2);
    RenderAppendDigit(12, 3);
  }

  /** The label keeps the last four digits of a ten-digit item id. */
  lemma LongItemIdLabel()
    ensures Label(Row(NoParent, 123, ItemId(9876543210), "create", "x")) == "3210: [create, x]"
  {
    var r := Row(NoParent, 123, ItemId(9876543210), "create", "x");
    LongItemSuffix();
    assert Label(r) == "3210" + ": [" + "create" + ", " + "x" + "]";
  }

  lemma LongItemSuffix()
    ensures ItemSuffix(ItemId(9876543210)) == "3210"
  {
    LowDigitCharsIsSuffix(9876543210, 4);
    LongItemLowDigits();
  }

  lemma LongItemLowDigits()
    ensures LowDigitChars(9876543210, 4) == "3210"
  {
    assert LowDigitChars(98765432, 2) == "32" by {
      assert LowDigitChars(9876543, 1) == "3";
    }
    assert LowDigitChars(9876543210, 4) == LowDigitChars(98765432, 2) + "10";
  }

  /** A ten-digit id renders digit for digit. */
  lemma TenDigitRendering()
    ensures NatToDecimal(9876543210) == "9876543210"
  {
    RenderAppendDigit(9, 8);
    RenderAppendDigit(98, 7);
    RenderAppendDigit(987, 6);
    RenderAppendDigit(9876, 5);
    RenderAppendDigit(98765, 4);
    RenderAppendDigit(987654, 3);
    RenderAppendDigit(9876543, 2);
    RenderAppendDigit(98765432, 1);
    RenderAppendDigit(987654321, 0);
  }

  /** An id of 2^53 + 1, which a double cannot represent, still renders
      exactly: ids are bigints. */
  lemma AboveDoublePrecisionRendering()
    ensures NatToDecimal(9007199254740993) == "9007199254740993"
  {
    HighDigitsRendering();
    RenderAppendDigit(90071992, 5);
    RenderAppendDigit(900719925, 4);
    RenderAppendDigit(9007199254, 7);
    RenderAppendDigit(90071992547, 4);
    RenderAppendDigit(900719925474, 0);
    RenderAppendDigit(9007199254740, 9);
    RenderAppendDigit(90071992547409, 9);
    RenderAppendDigit(900719925474099, 3);
  }

  lemma HighDigitsRendering()
    ensures NatToDecimal(90071992) == "90071992"
  {
    RenderAppendDigit(9, 0);
    RenderAppendDigit(90, 0);
    RenderAppendDigit(900, 7);
    RenderAppendDigit(9007, 1);
    RenderAppendDigit(90071, 9);
    RenderAppendDigit(900719, 9);
    RenderAppendDigit(9007199, 2);
  }

  /** A missing item id leaves the item part empty. */
  lemma MissingItemLabel()
    ensures Label(Row(NoParent, 123, NoItem, "create", "x")) == ": [create, x]"
  {
    assert ItemSuffix(NoItem) == "";
    assert "" + ": [" + "create" + ", " + "x" + "]" == ": [create, x]";
  }

  /** A short item id is kept whole. */
  lemma ShortItemIdLabel()
    ensures Label(Row(NoParent, 7, ItemId(42), "set", "1")) == "42: [set, 1]"
  {
    ShortItemSuffix();
    assert "42" + ": [" + "set" + ", " + "1" + "]" == "42: [set, 1]";
  }

  lemma ShortItemSuffix()
    ensures ItemSuffix(ItemId(42)) == "42"
  {
    RenderAppendDigit(4, 2);
    LastNWhole("42", 4);
  }

  /** A row without a parent gives its node and no edge; a parent id of 0
      counts as no parent. */
  lemma NoParentExample()
    ensures Project([Row(NoParent, 5, NoItem, "create", "y")]) ==
      Snapshot([Node("ROOT", "ROOT"), Node("5", ": [create, y]")], [])
    ensures Project([Row(ParentId(0), 5, NoItem, "create", "y")]).edges == []
  {
    var r, r0 := Row(NoParent, 5, NoItem, "create", "y"), Row(ParentId(0), 5, NoItem, "create", "y");
    assert [r][..0] == [] && [r0][..0] == [];
    assert Label(r) == ": [create, y]";
  }

  /** Two refreshes: a parentless event and its child give 3 nodes and 1
      edge; adding a second child gives 4 nodes and 2 edges. */
  lemma RefreshExample()
    ensures var first := [Row(NoParent, 1, ItemId(10), "create", "a"), Row(ParentId(1), 2, ItemId(10), "set", "b")];
      |Project(first).nodes| == 3 && Project(first).edges == [Edge("1", "2")]
    ensures var second := [Row(NoParent, 1, ItemId(10), "create", "a"), Row(ParentId(1), 2, ItemId(10), "set", "b"),
                           Row(ParentId(1), 3, ItemId(10), "set", "c")];
      |Project(second).nodes| == 4 && Project(second).edges == [Edge("1", "2"), Edge("1", "3")]
  {
    var a, b, c := Row(NoParent, 1, ItemId(10), "create", "a"), Row(ParentId(1), 2, ItemId(10), "set", "b"),
                   Row(ParentId(1), 3, ItemId(10), "set", "c");
    assert [a, b][..1] == [a] && [a][..0] == [] && [a, b, c][..2] == [a, b];
    assert NatToDecimal(1) == "1" && NatToDecimal(2) == "2" && NatToDecimal(3) == "3";
    assert Edges([a]) == [];
    assert Edges([a, b]) == [Edge("1", "2")];
    EventNodesLength([a, b]);
    EventNodesLength([a, b, c]);
  }
}
