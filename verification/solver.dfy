/**
  `LayoutSolver::solve`: sets the root's maxima to the window, then runs the four
  passes in order — minimum constraints, maximum constraints, sizes,
  positions — over the whole tree.
 */
module Solver {
  import opened Sizing
  import opened Nodes
  import opened HorizontalNode
  import opened Passes

  /** The root after `set_max_width` and `set_max_height` with the window. */
  function Bound(n: Layout, window: Size): (b: Layout)
    ensures Agrees(n, b, Shape) && FlexSound(n) == FlexSound(b)
    ensures b.constraints.maxWidth == window.width && b.constraints.maxHeight == window.height
    ensures b.constraints.minWidth == n.constraints.minWidth
    ensures b.constraints.minHeight == n.constraints.minHeight
    ensures b == n.(constraints := b.constraints)
  {
    var b := n.(constraints := n.constraints.(maxWidth := window.width, maxHeight := window.height));
    AgreesOnNodeUpdate(n, b, Shape);
    b
  }

  /** The first three steps of `solve`: the root's maxima set to the window,
      then the minimum and maximum passes. */
  function Constrained(n: Layout, window: Size): (x: Layout)
    requires FlexSound(n)
    ensures Agrees(n, x, Shape) && x.position == n.position
    ensures x.constraints.maxWidth == window.width && x.constraints.maxHeight == window.height
    ensures FlexSound(x) && MinSettled(x) && MaxSettled(x, window)
    ensures n.Horizontal? ==>
              forall i :: 0 <= i < |n.children| ==>
                x.children[i].constraints == ChildConstraints(n.children[i], FlexWidthTotal(n.children), window)
    ensures n.Horizontal? ==> forall i :: 0 <= i < |n.children| ==> Framed(n.children[i], x.children[i])
  {
    var b := Bound(n, window);
    var m := SolveMinConstraints(b).0;
    AgreesTrans(n, b, m, Shape);
    FlexSoundTransfer(b, m);
    var x := SolveMaxConstraints(m, window);
    AgreesTrans(n, m, x, Shape);
    MinSettledTransfer(m, x);
    x
  }

  /** `solve(root, window_size)`. The result has the input's shape and
      position, a root whose maxima are the window's, and is settled for every
      pass: the minimum pass's rules hold at the root, every child holds
      the constraints its parent's maximum pass gives it, every size is
      resolved from its constraints, and every row of children sits where
      the cursor walk puts it. No minimum below the root is ever written
      (the minimum pass does not recurse), so each child of the root ends up
      with its input constraints except for the maxima its parent gives it,
      and every node below the root keeps the minima it came with. */
  function Solve(n: Layout, window: Size): (r: Layout)
    requires FlexSound(n)
    ensures Agrees(n, r, Shape) && r.position == n.position
    ensures r.constraints.maxWidth == window.width && r.constraints.maxHeight == window.height
    ensures FlexSound(r) && MinSettled(r) && MaxSettled(r, window) && SizeSettled(r) && Placed(r)
    ensures r.size.width == (match n.intrinsicSize.width
                             case Fixed(v) => v
                             case Flex(_) => window.width
                             case Shrink => if n.Horizontal? then FixedSizeSum(n.children).width
                                            else n.constraints.minWidth)
    ensures r.size.height == (match n.intrinsicSize.height
                              case Fixed(v) => v
                              case Flex(_) => window.height
                              case Shrink => if n.Horizontal? then FixedSizeSum(n.children).height
                                             else n.constraints.minHeight)
    ensures n.Horizontal? ==>
              forall i :: 0 <= i < |n.children| ==>
                r.children[i].constraints == ChildConstraints(n.children[i], FlexWidthTotal(n.children), window)
    ensures n.Horizontal? ==> forall i :: 0 <= i < |n.children| ==> InputMinima(n.children[i], r.children[i])
  {
    var x := Constrained(n, window);
    var u := UpdateSize(x);
    var p := PositionChildren(u);
    AgreesWeaken(u, p, Sizes, Constraints);
    AgreesTrans(x, u, p, Constraints);
    AgreesWeaken(x, p, Constraints, Shape);
    AgreesTrans(n, x, p, Shape);
    FlexSoundTransfer(x, p);
    MaxSettledTransfer(x, p, window);
    MinSettledTransfer(x, p);
    SizeSettledTransfer(u, p);
    AgreesChildren(x, p, Constraints);
    if n.Horizontal? then
      GroupMinimaKept(n.children, x.children, p.children);
      p
    else p
  }

  lemma GroupMinimaKept(cs: seq<Layout>, xs: seq<Layout>, ps: seq<Layout>)
    requires |cs| == |xs| == |ps|
    requires forall i :: 0 <= i < |cs| ==> Framed(cs[i], xs[i]) && Agrees(xs[i], ps[i], Constraints)
    ensures forall i :: 0 <= i < |cs| ==> InputMinima(cs[i], ps[i])
  {
    forall i | 0 <= i < |cs|
      ensures InputMinima(cs[i], ps[i])
    {
      FramedThenAgreeing(cs[i], xs[i], ps[i]);
    }
  }

  /** Solving a solved tree again, in the same window, changes nothing. */
  lemma SolveIdempotent(n: Layout, window: Size)
    requires FlexSound(n)
    ensures Solve(Solve(n, window), window) == Solve(n, window)
  {
    var r := Solve(n, window);
    assert Bound(r, window) == r;
    MinFixpoint(r);
    MaxFixpoint(r, window);
    UpdateFixpoint(r);
    PlaceFixpoint(r);
  }

  /** What each child of a solved horizontal root resolves to: a Flex-width
      child takes its share of the window's width, a Flex-height child the
      window's height, a Fixed axis its value, and a Shrink axis its own
      input minimum (the minimum pass never reaches it). */
  lemma SolvedChildSize(n: Layout, window: Size, i: nat)
    requires FlexSound(n) && n.Horizontal? && i < |n.children|
    ensures var c := n.children[i];
            Solve(n, window).children[i].size ==
              Size(match c.intrinsicSize.width
                   case Fixed(v) => v
                   case Flex(f) => Share(f, FlexWidthTotal(n.children), window.width)
                   case Shrink => c.constraints.minWidth,
                   match c.intrinsicSize.height
                   case Fixed(v) => v
                   case Flex(_) => window.height
                   case Shrink => c.constraints.minHeight)
  {
    var r := Solve(n, window);
    AgreesChildren(n, r, Shape);
    assert SizeSettled(r.children[i]);
  }

  /** Below the root, no pass writes a minimum, so every Shrink axis of
      every node under child `i` of a solved horizontal root resolves to
      the minimum that node came with. */
  lemma SolvedShrinkBelowRoot(n: Layout, window: Size, i: nat)
    requires FlexSound(n) && n.Horizontal? && i < |n.children|
    ensures ShrinkFromInput(n.children[i], Solve(n, window).children[i])
  {
    var r := Solve(n, window);
    AgreesChildren(n, r, Shape);
    assert SizeSettled(r.children[i]);
    InputMinimaSizes(n.children[i], r.children[i]);
  }

  /** A Shrink-width grandchild of a solved horizontal root is as wide as
      the minimum width it came with. */
  lemma SolvedGrandchildShrink(n: Layout, window: Size, i: nat, j: nat)
    requires FlexSound(n) && n.Horizontal? && i < |n.children|
    requires n.children[i].Horizontal? && j < |n.children[i].children|
    requires n.children[i].children[j].intrinsicSize.width.Shrink?
    ensures Solve(n, window).children[i].children[j].size.width == n.children[i].children[j].constraints.minWidth
  {
    SolvedShrinkBelowRoot(n, window, i);
  }

  /** A Flex-width child of a solved horizontal root is its factor's share
      of the window's width. */
  lemma SolvedFlexWidth(n: Layout, window: Size, i: nat)
    requires FlexSound(n) && n.Horizontal? && i < |n.children|
    requires n.children[i].intrinsicSize.width.Flex?
    ensures Solve(n, window).children[i].size.width ==
              Share(n.children[i].intrinsicSize.width.factor, FlexWidthTotal(n.children), window.width)
  {
    SolvedChildSize(n, window, i);
  }

  /** The sum of the widths of a group's Flex-width members. */
  function FlexWidthSum(cs: seq<Layout>): real
    decreases cs
  {
    if |cs| == 0 then 0.0
    else (if cs[0].intrinsicSize.width.Flex? then cs[0].size.width else 0.0) + FlexWidthSum(cs[1..])
  }

  /** A group whose Flex-width members hold their shares has Flex widths
      adding up to the sum of the shares. */
  lemma {:induction false} FlexWidthSumIsShares(cs: seq<Layout>, rs: seq<Layout>, total: nat, width: real)
    requires total > 0 && |cs| == |rs|
    requires forall i :: 0 <= i < |cs| ==> rs[i].intrinsicSize == cs[i].intrinsicSize
    requires forall i :: 0 <= i < |cs| && cs[i].intrinsicSize.width.Flex? ==>
               rs[i].size.width == Share(cs[i].intrinsicSize.width.factor, total, width)
    ensures FlexWidthSum(rs) == SharesOf(cs, total, width)
    decreases |cs|
  {
    if |cs| > 0 {
      FlexWidthSumIsShares(cs[1..], rs[1..], total, width);
    }
  }

  /** The Flex-width children of a solved horizontal root fill the window's
      width exactly. */
  lemma FlexChildrenFillWindow(n: Layout, window: Size)
    requires FlexSound(n) && n.Horizontal? && FlexWidthTotal(n.children) > 0
    ensures FlexWidthSum(Solve(n, window).children) == window.width
  {
    var r := Solve(n, window);
    var total := FlexWidthTotal(n.children);
    AgreesChildren(n, r, Shape);
    forall i | 0 <= i < |n.children| && n.children[i].intrinsicSize.width.Flex?
      ensures r.children[i].size.width == Share(n.children[i].intrinsicSize.width.factor, total, window.width)
    {
      SolvedFlexWidth(n, window, i);
    }
    FlexWidthSumIsShares(n.children, r.children, total, window.width);
    SharesFillWidth(n.children, window.width);
  }

  /** Flex-width children of a solved horizontal root are as wide as their
      factors are large, relative to each other. */
  lemma FlexChildrenProportional(n: Layout, window: Size, i: nat, j: nat)
    requires FlexSound(n) && n.Horizontal?
    requires i < |n.children| && j < |n.children|
    requires n.children[i].intrinsicSize.width.Flex? && n.children[j].intrinsicSize.width.Flex?
    ensures var r := Solve(n, window);
            Proportional(r.children[i].size.width, r.children[j].size.width,
                         n.children[i].intrinsicSize.width.factor, n.children[j].intrinsicSize.width.factor)
  {
    var r := Solve(n, window);
    var fi, fj := n.children[i].intrinsicSize.width.factor, n.children[j].intrinsicSize.width.factor;
    SolvedFlexWidth(n, window, i);
    SolvedFlexWidth(n, window, j);
    SharesProportional(r.children[i].size.width, r.children[j].size.width, fi, fj, FlexWidthTotal(n.children), window.width);
  }

  /** Every Flex-height node strictly below `c` has height 0. */
  predicate FlexHeightsZero(c: Layout)
    decreases c
  {
    c.Horizontal? ==>
      forall j :: 0 <= j < |c.children| ==>
        && (c.children[j].intrinsicSize.height.Flex? ==> c.children[j].size.height == 0.0)
        && FlexHeightsZero(c.children[j])
  }

  /** Every Flex-width node strictly below `c` has width 0. */
  predicate FlexWidthsZero(c: Layout)
    decreases c
  {
    c.Horizontal? ==>
      forall j :: 0 <= j < |c.children| ==>
        && (c.children[j].intrinsicSize.width.Flex? ==> c.children[j].size.width == 0.0)
        && FlexWidthsZero(c.children[j])
  }

  /** A settled node handed a space of height 0 hands each child a space of
      height 0 again, so every Flex-height node below it has height 0; with
      a space of width 0 too, every Flex-width node below it has width 0. */
  lemma {:induction false} NoSpaceBelow(c: Layout, space: Size)
    requires FlexSound(c) && MaxSettled(c, space) && SizeSettled(c)
    ensures space.height == 0.0 ==> FlexHeightsZero(c)
    ensures space.width == 0.0 ==> FlexWidthsZero(c)
    decreases c
  {
    if c.Horizontal? {
      var total := FlexWidthTotal(c.children);
      forall j | 0 <= j < |c.children|
        ensures space.height == 0.0 ==>
                  (c.children[j].intrinsicSize.height.Flex? ==> c.children[j].size.height == 0.0)
                  && FlexHeightsZero(c.children[j])
        ensures space.width == 0.0 ==>
                  (c.children[j].intrinsicSize.width.Flex? ==> c.children[j].size.width == 0.0)
                  && FlexWidthsZero(c.children[j])
      {
        var g := c.children[j];
        SpaceBounds(c, space, j);
        var inner := ChildSpace(g, total, space);
        assert inner.height == 0.0;
        if space.width == 0.0 && g.intrinsicSize.width.Flex? {
          assert Share(g.intrinsicSize.width.factor, total, 0.0) == 0.0;
        }
        NoSpaceBelow(g, inner);
      }
    }
  }

  /** A horizontal node hands each child a space of height 0, so below any
      child of a solved horizontal root, at every depth, a Flex-height node
      has height 0; below a child that is not itself Flex-width, a
      Flex-width node has width 0. */
  lemma NoSpaceBelowChildren(n: Layout, window: Size, i: nat)
    requires FlexSound(n) && n.Horizontal? && i < |n.children|
    ensures FlexHeightsZero(Solve(n, window).children[i])
    ensures !n.children[i].intrinsicSize.width.Flex? ==> FlexWidthsZero(Solve(n, window).children[i])
  {
    var space := ChildSpace(n.children[i], FlexWidthTotal(n.children), window);
    SolvedChildSettled(n, window, i);
    NoSpaceBelow(Solve(n, window).children[i], space);
  }

  /** Each child of a solved horizontal root is settled for the space its
      parent hands it. */
  lemma SolvedChildSettled(n: Layout, window: Size, i: nat)
    requires FlexSound(n) && n.Horizontal? && i < |n.children|
    ensures var c := Solve(n, window).children[i];
            && FlexSound(c) && SizeSettled(c)
            && MaxSettled(c, ChildSpace(n.children[i], FlexWidthTotal(n.children), window))
  {
    var r := Solve(n, window);
    AgreesChildren(n, r, Shape);
    FlexTotalOfAgreeing(n.children, r.children);
    assert MaxSettled(r.children[i], ChildSpace(r.children[i], FlexWidthTotal(r.children), window));
  }

  /** Inside a settled horizontal node handed `space`, a Flex-height child
      resolves to `space.height`, and a Flex-width child to width 0 when
      `space.width` is 0. */
  lemma SpaceBounds(c: Layout, space: Size, j: nat)
    requires FlexSound(c) && c.Horizontal? && j < |c.children|
    requires MaxSettled(c, space) && SizeSettled(c)
    ensures var g := c.children[j];
            && (g.intrinsicSize.height.Flex? ==> g.size.height == space.height)
            && (g.intrinsicSize.width.Flex? && space.width == 0.0 ==> g.size.width == 0.0)
  {
    var g := c.children[j];
    var total := FlexWidthTotal(c.children);
    assert g.constraints == ChildConstraints(g, total, space);
    assert SizeSettled(g);
    if g.intrinsicSize.width.Flex? {
      assert total > 0;
      assert Share(g.intrinsicSize.width.factor, total, 0.0) == 0.0;
    }
  }
}
