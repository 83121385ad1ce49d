/**
  The node-local rules of `HorizontalLayout`: the fixed-size summary of its
  children, its own minimum, and the constraints and space it hands each
  child during the max pass. The recursive passes that use them are in
  `Passes`.
 */
module HorizontalNode {
  import opened Sizing
  import opened Nodes

  /** The width a child's policy fixes, 0 when it is not Fixed. */
  function FixedWidthOf(c: Layout): real
  {
    if c.intrinsicSize.width.Fixed? then c.intrinsicSize.width.value else 0.0
  }

  /** `fixed_size_sum`: walking the children in order, Fixed widths are added
      up and Fixed heights are folded with `max` starting from 0; Flex and
      Shrink axes contribute nothing. */
  function FixedSizeSum(cs: seq<Layout>): (s: Size)
    ensures s.height >= 0.0
    ensures forall i :: 0 <= i < |cs| && cs[i].intrinsicSize.height.Fixed? ==>
              cs[i].intrinsicSize.height.value <= s.height
    ensures s.height == 0.0 ||
            exists i :: 0 <= i < |cs| && cs[i].intrinsicSize.height == Fixed(s.height)
    ensures (forall i :: 0 <= i < |cs| ==> !cs[i].intrinsicSize.width.Fixed?) ==> s.width == 0.0
    decreases |cs|
  {
    if |cs| == 0 then ZeroSize
    else
      var sum := FixedSizeSum(cs[..|cs| - 1]);
      var last := cs[|cs| - 1].intrinsicSize;
      var height := if last.height.Fixed? then Max(sum.height, last.height.value) else sum.height;
      Size(sum.width + FixedWidthOf(cs[|cs| - 1]), height)
  }

  /** The summary of two consecutive runs of children combines the runs'
      summaries: widths add up and heights take the larger. */
  lemma {:induction false} FixedSizeSumSplit(a: seq<Layout>, b: seq<Layout>)
    ensures FixedSizeSum(a + b).width == FixedSizeSum(a).width + FixedSizeSum(b).width
    ensures FixedSizeSum(a + b).height == Max(FixedSizeSum(a).height, FixedSizeSum(b).height)
    decreases |b|
  {
    if |b| == 0 {
      assert a + b == a;
    } else {
      var b' := b[..|b| - 1];
      assert (a + b)[..|a + b| - 1] == a + b';
      assert (a + b)[|a + b| - 1] == b[|b| - 1];
      FixedSizeSumSplit(a, b');
    }
  }

  /** The summary depends only on the children's policies. */
  lemma {:induction false} FixedSumOfAgreeing(cs: seq<Layout>, ds: seq<Layout>)
    requires |cs| == |ds|
    requires forall i :: 0 <= i < |cs| ==> cs[i].intrinsicSize == ds[i].intrinsicSize
    ensures FixedSizeSum(cs) == FixedSizeSum(ds)
    decreases |cs|
  {
    if |cs| > 0 {
      FixedSumOfAgreeing(cs[..|cs| - 1], ds[..|ds| - 1]);
    }
  }

  /** The constraints `HorizontalLayout::solve_min_constraints` leaves behind,
      given the children's fixed-size summary `fixed`: a Fixed axis takes its
      value, a Shrink axis takes the summary, a Flex axis keeps its minimum. */
  function MinConstraints(isz: IntrinsicSize, k: BoxConstraints, fixed: Size): (r: BoxConstraints)
    ensures r.maxWidth == k.maxWidth && r.maxHeight == k.maxHeight
    ensures r.minWidth == (match isz.width
                           case Fixed(v) => v
                           case Shrink => fixed.width
                           case Flex(_) => k.minWidth)
    ensures r.minHeight == (match isz.height
                            case Fixed(v) => v
                            case Shrink => fixed.height
                            case Flex(_) => k.minHeight)
  {
    var minWidth := match isz.width
      case Fixed(v) => v
      case Shrink => fixed.width
      case Flex(_) => k.minWidth;
    var minHeight := match isz.height
      case Fixed(v) => v
      case Shrink => fixed.height
      case Flex(_) => k.minHeight;
    k.(minWidth := minWidth, minHeight := minHeight)
  }

  /** `factor as f32 / total as f32 * width` */
  function Share(factor: nat, total: nat, width: real): real
    requires total > 0
  {
    (factor as real / total as real) * width
  }

  /** Widths `a` and `b` stand in the ratio of factors `f` and `g`. */
  predicate Proportional(a: real, b: real, f: nat, g: nat)
  {
    a * g as real == b * f as real
  }

  /** Shares are proportional to their factors. */
  lemma SharesProportional(a: real, b: real, f: nat, g: nat, total: nat, width: real)
    requires total > 0 && a == Share(f, total, width) && b == Share(g, total, width)
    ensures Proportional(a, b, f, g)
  {
    var t := total as real;
    assert (f as real / t) * width * g as real == (f as real * g as real / t) * width;
    assert (g as real / t) * width * f as real == (f as real * g as real / t) * width;
  }

  /** The flex total of a group is positive whenever some child is Flex-width. */
  predicate FlexDefined(c: Layout, total: nat)
  {
    c.intrinsicSize.width.Flex? ==> total > 0
  }

  /** The constraints the max pass gives child `c` of a group whose Flex-width
      factors total `total`, inside `space`: a Flex-width child's max width
      becomes its share of `space.width`; a Flex-height child's max height
      becomes `space.height`, a Fixed-height child's its fixed height; every
      other constraint is kept. */
  function ChildConstraints(c: Layout, total: nat, space: Size): BoxConstraints
    requires FlexDefined(c, total)
  {
    var k := c.constraints;
    var k1 := match c.intrinsicSize.width
      case Flex(f) => k.(maxWidth := Share(f, total, space.width))
      case _ => k;
    match c.intrinsicSize.height
    case Flex(_) => k1.(maxHeight := space.height)
    case Fixed(h) => k1.(maxHeight := h)
    case Shrink => k1
  }

  /** A child that already holds the constraints its parent gives it is
      given the same constraints again. */
  lemma ChildConstraintsSettle(c: Layout, d: Layout, total: nat, space: Size)
    requires FlexDefined(c, total)
    requires d.intrinsicSize == c.intrinsicSize && d.constraints == ChildConstraints(c, total, space)
    ensures FlexDefined(d, total)
    ensures ChildConstraints(d, total, space) == d.constraints
  {
  }

  /** The space the max pass hands a child when it recurses into it: the
      child's flex share of the width (0 when it is not Flex-width) and a
      height of 0. */
  function ChildSpace(c: Layout, total: nat, space: Size): Size
    requires FlexDefined(c, total)
  {
    match c.intrinsicSize.width
    case Flex(f) => Size(Share(f, total, space.width), 0.0)
    case _ => ZeroSize
  }

  /** The sum of the flex shares a group's Flex-width children receive. */
  function SharesOf(cs: seq<Layout>, total: nat, width: real): real
    requires total > 0
    decreases cs
  {
    if |cs| == 0 then 0.0
    else
      (if cs[0].intrinsicSize.width.Flex? then Share(cs[0].intrinsicSize.width.factor, total, width) else 0.0)
      + SharesOf(cs[1..], total, width)
  }

  lemma SumOfFractions(f: real, rest: real, t: real, width: real)
    requires t > 0.0
    ensures (f / t) * width + (rest / t) * width == ((f + rest) / t) * width
  {
    assert f / t + rest / t == (f + rest) / t;
    assert (f / t) * width + (rest / t) * width == (f / t + rest / t) * width;
  }

  /** A group's shares are its head's share plus the rest's; a child
      without a Flex width has a zero share. */
  lemma HeadShare(cs: seq<Layout>, total: nat, width: real)
    requires total > 0 && |cs| > 0
    ensures SharesOf(cs, total, width) ==
              (FlexWidthOf(cs[0]) as real / total as real) * width + SharesOf(cs[1..], total, width)
  {
    if !cs[0].intrinsicSize.width.Flex? {
      ZeroShare(total as real, width);
    }
  }

  lemma ZeroShare(t: real, width: real)
    requires t > 0.0
    ensures (0.0 / t) * width == 0.0
  {
  }

  /** The shares of any group are its own factor total's fraction of the
      width. */
  lemma {:induction false} SharesAreFraction(cs: seq<Layout>, total: nat, width: real)
    requires total > 0
    ensures SharesOf(cs, total, width) == (FlexWidthTotal(cs) as real / total as real) * width
    decreases cs
  {
    if |cs| > 0 {
      var f, rest := FlexWidthOf(cs[0]), FlexWidthTotal(cs[1..]);
      SharesAreFraction(cs[1..], total, width);
      HeadShare(cs, total, width);
      SumOfFractions(f as real, rest as real, total as real, width);
      assert (f + rest) as real == f as real + rest as real;
    }
  }

  /** Flex shares split the whole width: when the group has Flex-width
      children, their shares add up to exactly `width`. */
  lemma SharesFillWidth(cs: seq<Layout>, width: real)
    requires FlexWidthTotal(cs) > 0
    ensures SharesOf(cs, FlexWidthTotal(cs), width) == width
  {
    var t := FlexWidthTotal(cs);
    SharesAreFraction(cs, t, width);
    WholeFraction(t as real, width);
  }

  lemma WholeFraction(t: real, width: real)
    requires t > 0.0
    ensures (t / t) * width == width
  {
    assert t / t == 1.0;
  }
}
