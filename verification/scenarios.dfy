/**
  The exact scenarios of the `crystal` unit tests, solved by the model.
  Where a test's expectation does not follow from the code, the lemma
  states what the code computes.
 */
module Scenarios {
  import opened Sizing
  import opened Nodes
  import opened HorizontalNode
  import opened Passes
  import opened Solver

  /** The sizes of a node's children, in declared order. */
  function ChildSizes(r: Layout): (sizes: seq<Size>)
    ensures |sizes| == |Children(r)|
    ensures forall i :: 0 <= i < |sizes| ==> sizes[i] == Children(r)[i].size
  {
    seq(|Children(r)|, i requires 0 <= i < |Children(r)| => Children(r)[i].size)
  }

  /** The positions of a node's children, in declared order. */
  function ChildPositions(r: Layout): (positions: seq<Position>)
    ensures |positions| == |Children(r)|
    ensures forall i :: 0 <= i < |positions| ==> positions[i] == Children(r)[i].position
  {
    seq(|Children(r)|, i requires 0 <= i < |Children(r)| => Children(r)[i].position)
  }

  /** Three children of the given sizes make that list of sizes. */
  lemma ThreeChildSizes(r: Layout, a: Size, b: Size, c: Size)
    requires |Children(r)| == 3
    requires Children(r)[0].size == a && Children(r)[1].size == b && Children(r)[2].size == c
    ensures ChildSizes(r) == [a, b, c]
  {
  }

  /** A node with the given policies. */
  function Sized(n: Layout, width: BoxSizing, height: BoxSizing): Layout
  {
    n.(intrinsicSize := IntrinsicSize(width, height))
  }

  /** A Flex(2) × Flex(2) empty root fills an 800 × 800 window. */
  lemma EmptyFlexFillsWindow()
    ensures Solve(Sized(NewEmpty(), Flex(2), Flex(2)), Size(800.0, 800.0)).size == Size(800.0, 800.0)
  {
  }

  /** A Fixed(200) × Fixed(125) empty root is 200 × 125 in any window. */
  lemma EmptyFixedIgnoresWindow(window: Size)
    ensures Solve(Sized(NewEmpty(), Fixed(200.0), Fixed(125.0)), window).size == Size(200.0, 125.0)
  {
  }

  /** A fresh empty root resolves to 0 × 0 in any window. */
  lemma EmptyDefaultIsZero(window: Size)
    ensures Solve(NewEmpty(), window).size == ZeroSize
  {
  }

  /** Two children of the given sizes make that list of sizes. */
  lemma TwoChildSizes(r: Layout, a: Size, b: Size)
    requires |Children(r)| == 2 && Children(r)[0].size == a && Children(r)[1].size == b
    ensures ChildSizes(r) == [a, b]
  {
  }

  /** Two children at the given positions make that list of positions. */
  lemma TwoChildPositions(r: Layout, a: Position, b: Position)
    requires |Children(r)| == 2 && Children(r)[0].position == a && Children(r)[1].position == b
    ensures ChildPositions(r) == [a, b]
  {
  }

  /** The tree of the first `HorizontalLayout` test: a default root over
      Fixed 400 × 200 and Fixed 500 × 350 children. */
  function FixedTree(): Layout
  {
    NewHorizontal([Sized(NewHorizontal([]), Fixed(400.0), Fixed(200.0)),
                   Sized(NewHorizontal([]), Fixed(500.0), Fixed(350.0))])
  }

  /** What the solver needs to know of `FixedTree`: a Shrink × Shrink
      root, no flex children, fixed sizes summing to 900 wide by 350 high
      (the taller child). */
  predicate FixedShape(n: Layout)
  {
    && n.Horizontal? && |n.children| == 2 && FlexSound(n)
    && n.intrinsicSize == IntrinsicSize(Shrink, Shrink)
    && n.children[0].intrinsicSize == IntrinsicSize(Fixed(400.0), Fixed(200.0))
    && n.children[1].intrinsicSize == IntrinsicSize(Fixed(500.0), Fixed(350.0))
    && FixedSizeSum(n.children) == Size(900.0, 350.0)
  }

  lemma FixedTreeShape()
    ensures FixedShape(FixedTree())
  {
    var cs := FixedTree().children;
    var c1, c2 := cs[0], cs[1];
    assert cs == [c1, c2];
    assert cs[..1] == [c1] && [c1][..0] == [];
    assert cs[1..] == [c2] && [c2][1..] == [];
    assert FlexWidthTotal([c2]) == 0;
    assert FlexWidthTotal(cs) == 0;
    assert FixedSizeSum([c1]) == Size(400.0, 200.0);
  }

  lemma FixedShapeSolves(n: Layout)
    requires FixedShape(n)
    ensures var r := Solve(n, Size(800.0, 800.0));
            r.size == Size(900.0, 350.0) && ChildSizes(r) == [Size(400.0, 200.0), Size(500.0, 350.0)]
  {
    var window := Size(800.0, 800.0);
    var r := Solve(n, window);
    assert r.children[0].size == Size(400.0, 200.0) by {
      SolvedChildSize(n, window, 0);
    }
    assert r.children[1].size == Size(500.0, 350.0) by {
      SolvedChildSize(n, window, 1);
    }
    TwoChildSizes(r, Size(400.0, 200.0), Size(500.0, 350.0));
  }

  /** Two Fixed children, 400 × 200 and 500 × 350, under a Shrink root in
      an 800 × 800 window: the root is 900 × 350, wider than the window, and
      the children keep their fixed sizes. */
  lemma FixedChildrenSumUp()
    ensures FlexSound(FixedTree())
    ensures var r := Solve(FixedTree(), Size(800.0, 800.0));
            r.size == Size(900.0, 350.0) && ChildSizes(r) == [Size(400.0, 200.0), Size(500.0, 350.0)]
  {
    FixedTreeShape();
    FixedShapeSolves(FixedTree());
  }

  /** A Flex(1) × Flex(1) root at the origin over children with flex
      factors `f` and `g` on both axes. */
  function FlexTree(f: U8, g: U8): Layout
  {
    Sized(NewHorizontal([Sized(NewHorizontal([]), Flex(f), Flex(f)),
                         Sized(NewHorizontal([]), Flex(g), Flex(g))]), Flex(1), Flex(1))
  }

  /** What the solver needs to know of `FlexTree(f, g)`. */
  predicate FlexShape(n: Layout, f: U8, g: U8)
  {
    && n.Horizontal? && |n.children| == 2 && FlexSound(n)
    && n.intrinsicSize == IntrinsicSize(Flex(1), Flex(1))
    && n.position == Origin && n.padding == 0 && n.spacing == 0
    && n.children[0].intrinsicSize == IntrinsicSize(Flex(f), Flex(f))
    && n.children[1].intrinsicSize == IntrinsicSize(Flex(g), Flex(g))
    && FlexWidthTotal(n.children) == f as nat + g as nat
  }

  lemma FlexTreeShape(f: U8, g: U8)
    requires 0 < f as nat + g as nat <= 255
    ensures FlexShape(FlexTree(f, g), f, g)
  {
    var cs := FlexTree(f, g).children;
    var c1, c2 := cs[0], cs[1];
    assert cs == [c1, c2];
    assert cs[1..] == [c2] && [c2][1..] == [];
    assert FlexWidthTotal([c2]) == g as nat;
  }

  lemma FlexFactorsShapeSolves(n: Layout)
    requires FlexShape(n, 1, 3)
    ensures var r := Solve(n, Size(800.0, 400.0));
            && r.size == Size(800.0, 400.0)
            && ChildSizes(r) == [Size(200.0, 400.0), Size(600.0, 400.0)]
            && ChildPositions(r) == [Position(0.0, 0.0), Position(200.0, 0.0)]
  {
    var window := Size(800.0, 400.0);
    var r := Solve(n, window);
    QuarterShares();
    assert r.children[0].size == Size(200.0, 400.0) by {
      SolvedChildSize(n, window, 0);
    }
    assert r.children[1].size == Size(600.0, 400.0) by {
      SolvedChildSize(n, window, 1);
    }
    TwoChildSizes(r, Size(200.0, 400.0), Size(600.0, 400.0));
    assert r.children[0].position == Position(0.0, 0.0) && r.children[1].position == Position(200.0, 0.0) by {
      PlacedRow(r);
      assert Start(r) == Position(0.0, 0.0);
    }
    TwoChildPositions(r, Position(0.0, 0.0), Position(200.0, 0.0));
  }

  /** Flex(1) and Flex(3) children of a Flex root in an 800 × 400 window:
      widths 200 and 600 (one quarter and three quarters), both of height
      400, side by side from the origin. */
  lemma FlexFactorsSplitWidth()
    ensures FlexSound(FlexTree(1, 3))
    ensures var r := Solve(FlexTree(1, 3), Size(800.0, 400.0));
            && r.size == Size(800.0, 400.0)
            && ChildSizes(r) == [Size(200.0, 400.0), Size(600.0, 400.0)]
            && ChildPositions(r) == [Position(0.0, 0.0), Position(200.0, 0.0)]
  {
    FlexTreeShape(1, 3);
    FlexFactorsShapeSolves(FlexTree(1, 3));
  }

  lemma EqualFlexShapeSolves(n: Layout)
    requires FlexShape(n, 1, 1)
    ensures var r := Solve(n, Size(800.0, 800.0));
            r.size == Size(800.0, 800.0) && ChildSizes(r) == [Size(400.0, 800.0), Size(400.0, 800.0)]
  {
    var window := Size(800.0, 800.0);
    var r := Solve(n, window);
    HalfShare();
    assert r.children[0].size == Size(400.0, 800.0) by {
      SolvedChildSize(n, window, 0);
    }
    assert r.children[1].size == Size(400.0, 800.0) by {
      SolvedChildSize(n, window, 1);
    }
    TwoChildSizes(r, Size(400.0, 800.0), Size(400.0, 800.0));
  }

  /** Two Flex(1) children of a Flex root in an 800 × 800 window split the
      width but each takes the whole height: 400 × 800, not half the
      window. */
  lemma EqualFlexChildrenTakeFullHeight()
    ensures FlexSound(FlexTree(1, 1))
    ensures var r := Solve(FlexTree(1, 1), Size(800.0, 800.0));
            r.size == Size(800.0, 800.0) && ChildSizes(r) == [Size(400.0, 800.0), Size(400.0, 800.0)]
  {
    FlexTreeShape(1, 1);
    EqualFlexShapeSolves(FlexTree(1, 1));
  }

  /** The root of the `crystal` library test: a default horizontal node
      over (Fixed 250, Flex 1), (Flex 1, Fixed 20) and (Shrink, Fixed 250)
      empty children. */
  function MixedTree(): Layout
  {
    NewHorizontal([Sized(NewEmpty(), Fixed(250.0), Flex(1)),
                   Sized(NewEmpty(), Flex(1), Fixed(20.0)),
                   Sized(NewEmpty(), Shrink, Fixed(250.0))])
  }

  /** The one Flex width has the whole flex total, and the fixed sizes sum
      to 250 wide (only the first child fixes its width) by 250 high (the
      tallest fixed height). */
  lemma MixedTreeTotals()
    ensures FlexSound(MixedTree())
    ensures FlexWidthTotal(MixedTree().children) == 1
    ensures FixedSizeSum(MixedTree().children) == Size(250.0, 250.0)
  {
    var cs := MixedTree().children;
    var c1, c2, c3 := cs[0], cs[1], cs[2];
    assert cs == [c1, c2, c3];
    assert cs[1..] == [c2, c3] && [c2, c3][1..] == [c3] && [c3][1..] == [];
    assert cs[..2] == [c1, c2] && [c1, c2][..1] == [c1] && [c1][..0] == [];
    assert FlexWidthTotal([c3]) == 0;
    assert FlexWidthTotal([c2, c3]) == 1;
    assert FixedSizeSum([c1]) == Size(250.0, 0.0);
    assert FixedSizeSum([c1, c2]) == Size(250.0, 20.0);
  }

  /** The child sizes the code produces for the library test's tree: the
      test expects 250 × 250 for the first child and 0 × 20 for the second. */
  function MixedSizes(): seq<Size>
  {
    [Size(250.0, 1000.0), Size(1000.0, 20.0), Size(0.0, 250.0)]
  }

  /** What the solver needs to know of the library test's tree: a Shrink ×
      Shrink horizontal root over (Fixed 250, Flex 1), (Flex 1, Fixed 20)
      and (Shrink, Fixed 250) children, the last with a zero minimum width,
      whose flex total is 1 and whose fixed sizes sum to 250 × 250. */
  predicate MixedShape(n: Layout)
  {
    && n.Horizontal? && |n.children| == 3 && FlexSound(n)
    && n.intrinsicSize == IntrinsicSize(Shrink, Shrink)
    && n.children[0].intrinsicSize == IntrinsicSize(Fixed(250.0), Flex(1))
    && n.children[1].intrinsicSize == IntrinsicSize(Flex(1), Fixed(20.0))
    && n.children[2].intrinsicSize == IntrinsicSize(Shrink, Fixed(250.0))
    && n.children[2].constraints.minWidth == 0.0
    && FlexWidthTotal(n.children) == 1
    && FixedSizeSum(n.children) == Size(250.0, 250.0)
  }

  lemma MixedTreeShape()
    ensures MixedShape(MixedTree())
  {
    MixedTreeTotals();
  }

  /** The first child (Fixed 250 × Flex 1) keeps its width and takes the
      window's whole height. */
  lemma MixedShapeFirst(n: Layout)
    requires MixedShape(n)
    ensures var r := Solve(n, Size(1000.0, 1000.0));
            |r.children| == 3 && r.children[0].size == Size(250.0, 1000.0)
  {
    SolvedChildSize(n, Size(1000.0, 1000.0), 0);
  }

  /** The second child (Flex 1 × Fixed 20) holds the whole flex total, so
      it takes the window's whole width. */
  lemma MixedShapeSecond(n: Layout)
    requires MixedShape(n)
    ensures var r := Solve(n, Size(1000.0, 1000.0));
            |r.children| == 3 && r.children[1].size == Size(1000.0, 20.0)
  {
    var total, f := FlexWidthTotal(n.children), n.children[1].intrinsicSize.width.factor;
    assert total == 1 && f == 1;
    WholeShare(1000.0);
    SolvedChildSize(n, Size(1000.0, 1000.0), 1);
  }

  /** Factors 1 and 3 of a total of 4 share 800 as 200 and 600. */
  lemma QuarterShares()
    ensures Share(1, 4, 800.0) == 200.0 && Share(3, 4, 800.0) == 600.0
  {
  }

  /** Factor 1 of a total of 2 shares 800 as 400. */
  lemma HalfShare()
    ensures Share(1, 2, 800.0) == 400.0
  {
  }

  /** A sole flex factor's share is the whole width. */
  lemma WholeShare(width: real)
    ensures Share(1, 1, width) == width
  {
  }

  /** The third child (Shrink × Fixed 250) keeps its zero minimum width. */
  lemma MixedShapeThird(n: Layout)
    requires MixedShape(n)
    ensures var r := Solve(n, Size(1000.0, 1000.0));
            |r.children| == 3 && r.children[2].size == Size(0.0, 250.0)
  {
    SolvedChildSize(n, Size(1000.0, 1000.0), 2);
  }

  /** Any tree of that shape, solved in a 1000 × 1000 window, is 250 × 250
      with children 250 × 1000, 1000 × 20 and 0 × 250. */
  lemma MixedShapeSolves(n: Layout)
    requires MixedShape(n)
    ensures var r := Solve(n, Size(1000.0, 1000.0));
            r.size == Size(250.0, 250.0) && ChildSizes(r) == MixedSizes()
  {
    MixedShapeFirst(n);
    MixedShapeSecond(n);
    MixedShapeThird(n);
    var r := Solve(n, Size(1000.0, 1000.0));
    ThreeChildSizes(r, MixedSizes()[0], MixedSizes()[1], MixedSizes()[2]);
  }

  /** The library test's tree in a 1000 × 1000 window is 250 × 250; its
      children come out 250 × 1000, 1000 × 20 and 0 × 250. */
  lemma MixedChildren()
    ensures FlexSound(MixedTree())
    ensures var r := Solve(MixedTree(), Size(1000.0, 1000.0));
            r.size == Size(250.0, 250.0) && ChildSizes(r) == MixedSizes()
  {
    MixedTreeShape();
    MixedShapeSolves(MixedTree());
  }
}
