/** The forest of src/data/TreeData.ts and what the table's edits do to it. */
module Seed {
  import opened Rounding
  import opened TreeModel
  import opened Percentages

  function Phones(value: real): Tree { Leaf("phones", "Phones", value, 800.0) }
  function Laptops(value: real): Tree { Leaf("laptops", "Laptops", value, 700.0) }
  function Tables(value: real): Tree { Leaf("tables", "Tables", value, 300.0) }
  function Chairs(value: real): Tree { Leaf("chairs", "Chairs", value, 700.0) }

  function Electronics(value: real, cs: seq<Tree>): Tree
  {
    Internal("electronics", "Electronics", value, 1400.0, cs)
  }

  function Furniture(value: real, cs: seq<Tree>): Tree
  {
    Internal("furniture", "Furniture", value, 1000.0, cs)
  }

  /** `treeData`. Electronics is stored as 1400 although its children add up to 1500. */
  function TreeData(): seq<Tree>
  {
    [Electronics(1400.0, [Phones(800.0), Laptops(700.0)]),
     Furniture(1000.0, [Tables(300.0), Chairs(700.0)])]
  }

  /** The seed has six nodes, each at its (non-zero) original value, so the table first
      shows a variance of 0.00% on every row. */
  lemma SeedAtOriginals()
    ensures |Preorder(TreeData())| == 6
    ensures forall t <- Preorder(TreeData()) :: t.value == t.originalValue && t.originalValue > 0.0
    ensures forall t <- Preorder(TreeData()) :: Variance(t.value, t.originalValue) == Percent(0.0)
  {
    var e := Electronics(1400.0, [Phones(800.0), Laptops(700.0)]);
    var f := Furniture(1000.0, [Tables(300.0), Chairs(700.0)]);
    PreorderLeaves(Phones(800.0), Laptops(700.0));
    PreorderLeaves(Tables(300.0), Chairs(700.0));
    PreorderOne(e);
    PreorderOne(f);
    PreorderSplit([e, f]);
    assert [e, f][1..] == [f];
    assert Preorder(TreeData()) == [e, Phones(800.0), Laptops(700.0), f, Tables(300.0), Chairs(700.0)];
    forall t <- Preorder(TreeData()) ensures Variance(t.value, t.originalValue) == Percent(0.0) {
      UnchangedShowsZero(t.value);
    }
  }

  /** The seed breaks the sum invariant, so even an edit of an unknown id publishes
      different rows: Electronics becomes 1500. */
  lemma SeedUnbalanced()
    ensures !AllBalanced(TreeData())
    ensures Edit(TreeData(), "unknown", SetValue(0.0)) ==
            [Electronics(1500.0, [Phones(800.0), Laptops(700.0)]),
             Furniture(1000.0, [Tables(300.0), Chairs(700.0)])]
  {
    var ts := TreeData();
    assert !Balanced(ts[0]) by {
      assert SumValues(ts[0].children) == 1500.0;
    }
    assert Find(ts[0].children, "unknown") == None;
    assert Find(ts[1].children, "unknown") == None;
    assert Find(ts, "unknown") == None;
    RecalcLeaves(Phones(800.0), Laptops(700.0));
    RecalcLeaves(Tables(300.0), Chairs(700.0));
  }

  /** Tables at +10%: 300 becomes 330 and Furniture 1030; Electronics is recalculated too. */
  lemma TablesUpTenPercent()
    ensures Edit(TreeData(), "tables", AddPercent(10.0)) ==
            [Electronics(1500.0, [Phones(800.0), Laptops(700.0)]),
             Furniture(1030.0, [Tables(330.0), Chairs(700.0)])]
  {
    var ts := TreeData();
    assert Find(ts[0].children, "tables") == None;
    assert Find(ts[1].children, "tables") == Some(Tables(300.0));
    assert Find(ts, "tables") == Some(Tables(300.0));
    assert 300.0 * (1.0 + 10.0 / 100.0) == 330.0;
    Round4Exact(330.0, 3300000);
    var inner := DistributeAt(ts[1].children, "tables", 330.0, Round4);
    assert inner == [Tables(330.0), Chairs(700.0)];
    assert DistributeAt(ts, "tables", 330.0, Round4) ==
           [ts[0], Furniture(1000.0, inner)];
    RecalcLeaves(Phones(800.0), Laptops(700.0));
    RecalcLeaves(Tables(330.0), Chairs(700.0));
  }

  /** Phones set to 1000: Electronics becomes 1700, Furniture stays 1000. */
  lemma PhonesSetTo1000()
    ensures Edit(TreeData(), "phones", SetValue(1000.0)) ==
            [Electronics(1700.0, [Phones(1000.0), Laptops(700.0)]),
             Furniture(1000.0, [Tables(300.0), Chairs(700.0)])]
  {
    var ts := TreeData();
    assert Find(ts[0].children, "phones") == Some(Phones(800.0));
    assert Find(ts, "phones") == Some(Phones(800.0));
    var inner := DistributeAt(ts[0].children, "phones", 1000.0, Round4);
    assert inner == [Phones(1000.0), Laptops(700.0)];
    assert DistributeAt(ts, "phones", 1000.0, Round4) ==
           [Electronics(1400.0, inner), ts[1]];
    RecalcLeaves(Phones(1000.0), Laptops(700.0));
    RecalcLeaves(Tables(300.0), Chairs(700.0));
  }

  /** Furniture set to 500: its children get 150 and 350, in proportion to 300 and 700. */
  lemma FurnitureSetTo500()
    ensures Distribute(Furniture(1000.0, [Tables(300.0), Chairs(700.0)]), 500.0, Round4) ==
            Furniture(1000.0, [Tables(150.0), Chairs(350.0)])
  {
    var t := Furniture(1000.0, [Tables(300.0), Chairs(700.0)]);
    assert SumValues(t.children) == 1000.0;
    Round4Exact(150.0, 1500000);
    Round4Exact(350.0, 3500000);
    assert Share(t.children, 0, 500.0, Round4) == 150.0;
    assert Share(t.children, 1, 500.0, Round4) == 350.0;
  }

  /** Children that total 0 share evenly: 100 over two children gives 50 each. */
  lemma ZeroTotalSplitsEvenly()
    ensures Distribute(Furniture(0.0, [Tables(0.0), Chairs(0.0)]), 100.0, Round4) ==
            Furniture(0.0, [Tables(50.0), Chairs(50.0)])
  {
    var t := Furniture(0.0, [Tables(0.0), Chairs(0.0)]);
    assert SumValues(t.children) == 0.0;
    Round4Exact(50.0, 500000);
    assert Share(t.children, 0, 100.0, Round4) == 50.0;
    assert Share(t.children, 1, 100.0, Round4) == 50.0;
  }

  /** Two leaves in depth-first order are just the two leaves. */
  lemma {:induction false} PreorderLeaves(a: Tree, b: Tree)
    requires a.Leaf? && b.Leaf?
    ensures Preorder([a, b]) == [a, b]
  {
    PreorderSplit([a, b]);
    PreorderOne(a);
    PreorderOne(b);
    assert [a, b][1..] == [b];
  }

  /** Recalc of a two-leaf node stores the sum of the leaves. */
  lemma {:induction false} RecalcLeaves(a: Tree, b: Tree)
    requires a.Leaf? && b.Leaf?
    ensures forall id, lbl, v, orig :: Recalc(Internal(id, lbl, v, orig, [a, b])) ==
              Internal(id, lbl, a.value + b.value, orig, [a, b])
  {
    forall id, lbl, v, orig ensures Recalc(Internal(id, lbl, v, orig, [a, b])) ==
                                    Internal(id, lbl, a.value + b.value, orig, [a, b]) {
      var t := Internal(id, lbl, v, orig, [a, b]);
      assert RecalcSeq([a, b]) == [a, b];
      RecalcInternal(t);
      assert SumValues([a, b]) == a.value + b.value by {
        assert [a][..0] == [];
        assert SumValues([a]) == a.value;
        assert [a, b][..1] == [a];
        assert SumValues([a, b]) == SumValues([a]) + b.value;
      }
    }
  }
}
