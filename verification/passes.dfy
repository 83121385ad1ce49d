/**
  The four passes of a solve, each a pure function from a tree to a tree,
  dispatching on the node kind as the `Layout` trait does.

  Each pass comes with a predicate saying that a tree is already "settled"
  for it; the pass establishes its predicate, a settled tree is a fixpoint of
  the pass, and the later passes keep the earlier predicates because they do
  not touch the data those depend on. `Solver` composes these facts into
  the idempotence of a whole solve.
 */
module Passes {
  import opened Sizing
  import opened Nodes
  import EmptyNode
  import opened HorizontalNode

  // =====================================================================
  // Pass 1: `solve_min_constraints` (the node's own minimum only)
  // =====================================================================

  /** The node's minimum is what its min pass writes: the fixed value on a
      Fixed axis, and on a Shrink axis of a horizontal node the children's
      fixed-size summary. */
  predicate MinSettled(n: Layout)
  {
    && (n.intrinsicSize.width.Fixed? ==> n.constraints.minWidth == n.intrinsicSize.width.value)
    && (n.intrinsicSize.height.Fixed? ==> n.constraints.minHeight == n.intrinsicSize.height.value)
    && (n.Horizontal? && n.intrinsicSize.width.Shrink? ==>
          n.constraints.minWidth == FixedSizeSum(n.children).width)
    && (n.Horizontal? && n.intrinsicSize.height.Shrink? ==>
          n.constraints.minHeight == FixedSizeSum(n.children).height)
  }

  /** `solve_min_constraints`: sets the node's own minimum and returns it as
      `(min_width, min_height)`. Neither kind recurses into its children, and
      only the minimum is written. */
  function SolveMinConstraints(n: Layout): (r: (Layout, real, real))
    ensures r.0 == n.(constraints := r.0.constraints)
    ensures r.0.constraints.maxWidth == n.constraints.maxWidth
    ensures r.0.constraints.maxHeight == n.constraints.maxHeight
    ensures n.intrinsicSize.width.Flex? || (n.Empty? && n.intrinsicSize.width.Shrink?) ==>
              r.0.constraints.minWidth == n.constraints.minWidth
    ensures n.intrinsicSize.height.Flex? || (n.Empty? && n.intrinsicSize.height.Shrink?) ==>
              r.0.constraints.minHeight == n.constraints.minHeight
    ensures MinSettled(r.0)
    ensures Agrees(n, r.0, Shape)
    ensures r.1 == r.0.constraints.minWidth && r.2 == r.0.constraints.minHeight
  {
    var k := if n.Empty? then EmptyNode.MinConstraints(n.intrinsicSize, n.constraints)
             else HorizontalNode.MinConstraints(n.intrinsicSize, n.constraints, FixedSizeSum(n.children));
    var m := n.(constraints := k);
    AgreesOnNodeUpdate(n, m, Shape);
    (m, k.minWidth, k.minHeight)
  }

  lemma MinFixpoint(n: Layout)
    requires MinSettled(n)
    ensures SolveMinConstraints(n).0 == n
  {
  }

  /** A node stays min-settled under any change that keeps its own
      constraints and the policies of it and its children. */
  lemma MinSettledTransfer(a: Layout, b: Layout)
    requires MinSettled(a) && Agrees(a, b, Shape) && a.constraints == b.constraints
    ensures MinSettled(b)
  {
    if a.Horizontal? {
      AgreesChildren(a, b, Shape);
      FixedSumOfAgreeing(a.children, b.children);
    }
  }

  // =====================================================================
  // Pass 2: `solve_max_contraints` (pre-order, flex distribution)
  // =====================================================================

  /** A child after its parent has written its constraints. */
  function Constrain(c: Layout, total: nat, space: Size): Layout
    requires FlexDefined(c, total)
  {
    c.(constraints := ChildConstraints(c, total, space))
  }

  /** Every child holds the constraints its parent's max pass gives it, and
      is itself settled for the space it is handed. */
  predicate MaxSettled(n: Layout, space: Size)
    requires FlexSound(n)
    decreases n
  {
    n.Horizontal? ==>
      var total := FlexWidthTotal(n.children);
      forall i :: 0 <= i < |n.children| ==>
        && n.children[i].constraints == ChildConstraints(n.children[i], total, space)
        && MaxSettled(n.children[i], ChildSpace(n.children[i], total, space))
  }

  /** What the max pass leaves alone at a node: both minima, the max width
      unless the node is Flex-width, the max height when the node is
      Shrink-height, the size and the position. */
  predicate Unwritten(a: Layout, b: Layout)
  {
    && b.constraints.minWidth == a.constraints.minWidth
    && b.constraints.minHeight == a.constraints.minHeight
    && (!a.intrinsicSize.width.Flex? ==> b.constraints.maxWidth == a.constraints.maxWidth)
    && (a.intrinsicSize.height.Shrink? ==> b.constraints.maxHeight == a.constraints.maxHeight)
    && b.size == a.size && b.position == a.position
  }

  /** `b` differs from `a` at most in what the max pass writes, at every
      node of the tree. */
  predicate Framed(a: Layout, b: Layout)
    decreases a
  {
    && Unwritten(a, b)
    && |Children(a)| == |Children(b)|
    && (a.Horizontal? ==> forall i :: 0 <= i < |a.children| ==> Framed(a.children[i], b.children[i]))
  }

  /** `solve_max_contraints(space)`: an empty node does nothing; a
      horizontal node writes each child's constraints (flex share of
      `space.width`, cross-axis max) and recurses into it with the space of
      `ChildSpace`. The node's own constraints, size and position, and the
      shape of the tree, are untouched. */
  function SolveMaxConstraints(n: Layout, space: Size): (r: Layout)
    requires FlexSound(n)
    ensures Agrees(n, r, Shape) && FlexSound(r)
    ensures r.constraints == n.constraints && r.size == n.size && r.position == n.position
    ensures n.Horizontal? ==>
              forall i :: 0 <= i < |n.children| ==>
                r.children[i].constraints == ChildConstraints(n.children[i], FlexWidthTotal(n.children), space)
    ensures MaxSettled(r, space)
    ensures Framed(n, r)
    decreases Count(n), 0
  {
    if n.Empty? then n
    else
      var total := FlexWidthTotal(n.children);
      var rs := MaxAll(n.children, total, space);
      MaxGroupSettled(n.children, rs, total, space);
      n.(children := rs)
  }

  /** The max pass over one group of siblings, in order. */
  function MaxAll(cs: seq<Layout>, total: nat, space: Size): (rs: seq<Layout>)
    requires forall i :: 0 <= i < |cs| ==> FlexSound(cs[i]) && FlexDefined(cs[i], total)
    ensures |rs| == |cs|
    ensures forall i :: 0 <= i < |cs| ==>
              && Agrees(cs[i], rs[i], Shape) && FlexSound(rs[i])
              && rs[i].intrinsicSize == cs[i].intrinsicSize
              && rs[i].constraints == ChildConstraints(cs[i], total, space)
              && rs[i].size == cs[i].size && rs[i].position == cs[i].position
              && MaxSettled(rs[i], ChildSpace(cs[i], total, space))
              && Framed(cs[i], rs[i])
    decreases CountAll(cs), 1
  {
    if |cs| == 0 then []
    else
      var c := Constrain(cs[0], total, space);
      CountOfNodeUpdate(cs[0], c);
      FlexSoundOnNodeUpdate(cs[0], c);
      var r := SolveMaxConstraints(c, ChildSpace(cs[0], total, space));
      AgreesOnNodeUpdate(cs[0], c, Shape);
      AgreesTrans(cs[0], c, r, Shape);
      FramedAfterConstrain(cs[0], c, r);
      [r] + MaxAll(cs[1..], total, space)
  }

  /** Writing a child's constraints and then running its own max pass
      changes only what the max pass writes. */
  lemma FramedAfterConstrain(c: Layout, d: Layout, r: Layout)
    requires d == c.(constraints := d.constraints) && Unwritten(c, d)
    requires Framed(d, r) && r.constraints == d.constraints
    ensures Framed(c, r)
  {
    assert Children(c) == Children(d);
  }

  /** The group a horizontal node's max pass produces is settled for it. */
  lemma MaxGroupSettled(cs: seq<Layout>, rs: seq<Layout>, total: nat, space: Size)
    requires total == FlexWidthTotal(cs) && |rs| == |cs|
    requires forall i :: 0 <= i < |cs| ==> FlexSound(cs[i]) && FlexDefined(cs[i], total)
    requires forall i :: 0 <= i < |cs| ==>
               && FlexSound(rs[i])
               && rs[i].intrinsicSize == cs[i].intrinsicSize
               && rs[i].constraints == ChildConstraints(cs[i], total, space)
               && MaxSettled(rs[i], ChildSpace(cs[i], total, space))
    ensures FlexWidthTotal(rs) == total
    ensures forall i :: 0 <= i < |rs| ==>
              && FlexDefined(rs[i], total)
              && rs[i].constraints == ChildConstraints(rs[i], total, space)
              && ChildSpace(rs[i], total, space) == ChildSpace(cs[i], total, space)
  {
    FlexTotalOfAgreeing(cs, rs);
    forall i | 0 <= i < |rs|
      ensures FlexDefined(rs[i], total)
      ensures rs[i].constraints == ChildConstraints(rs[i], total, space)
    {
      ChildConstraintsSettle(cs[i], rs[i], total, space);
    }
  }

  lemma {:induction false} MaxFixpoint(n: Layout, space: Size)
    requires FlexSound(n) && MaxSettled(n, space)
    ensures SolveMaxConstraints(n, space) == n
    decreases Count(n), 0
  {
    if n.Horizontal? {
      MaxAllFixpoint(n.children, FlexWidthTotal(n.children), space);
    }
  }

  lemma {:induction false} MaxAllFixpoint(cs: seq<Layout>, total: nat, space: Size)
    requires forall i :: 0 <= i < |cs| ==> FlexSound(cs[i]) && FlexDefined(cs[i], total)
    requires forall i :: 0 <= i < |cs| ==>
               && cs[i].constraints == ChildConstraints(cs[i], total, space)
               && MaxSettled(cs[i], ChildSpace(cs[i], total, space))
    ensures MaxAll(cs, total, space) == cs
    decreases CountAll(cs), 1
  {
    if |cs| > 0 {
      assert Constrain(cs[0], total, space) == cs[0];
      MaxFixpoint(cs[0], ChildSpace(cs[0], total, space));
      MaxAllFixpoint(cs[1..], total, space);
      assert cs == [cs[0]] + cs[1..];
    }
  }

  /** Max-settledness survives any change that keeps every policy and every
      constraint: it reads nothing else. */
  lemma {:induction false} MaxSettledTransfer(a: Layout, b: Layout, space: Size)
    requires FlexSound(a) && FlexSound(b) && Agrees(a, b, Constraints) && MaxSettled(a, space)
    ensures MaxSettled(b, space)
    decreases a
  {
    if a.Horizontal? {
      AgreesChildren(a, b, Constraints);
      FlexTotalOfAgreeing(a.children, b.children);
      var total := FlexWidthTotal(a.children);
      forall i | 0 <= i < |b.children|
        ensures b.children[i].constraints == ChildConstraints(b.children[i], total, space)
        ensures MaxSettled(b.children[i], ChildSpace(b.children[i], total, space))
      {
        assert Agrees(a.children[i], b.children[i], Constraints);
        MaxSettledTransfer(a.children[i], b.children[i], ChildSpace(a.children[i], total, space));
      }
    }
  }

  // =====================================================================
  // Pass 3: `update_size` (the three-way switch, whole tree)
  // =====================================================================

  /** Every node's size is its policy resolved against its constraints:
      Fixed(v) gives v, Flex the maximum, Shrink the minimum. */
  predicate SizeSettled(n: Layout)
    decreases n
  {
    && n.size == Size(Resolve(n.intrinsicSize.width, n.constraints.minWidth, n.constraints.maxWidth),
                      Resolve(n.intrinsicSize.height, n.constraints.minHeight, n.constraints.maxHeight))
    && (n.Horizontal? ==> forall i :: 0 <= i < |n.children| ==> SizeSettled(n.children[i]))
  }

  /** `update_size`: resolves the node's size, then every child's. Nothing
      but sizes changes. */
  function UpdateSize(n: Layout): (r: Layout)
    ensures Agrees(n, r, Constraints) && r.position == n.position
    ensures SizeSettled(r)
    decreases n
  {
    var resolved := n.(size := Size(Resolve(n.intrinsicSize.width, n.constraints.minWidth, n.constraints.maxWidth),
                                    Resolve(n.intrinsicSize.height, n.constraints.minHeight, n.constraints.maxHeight)));
    if n.Empty? then resolved
    else resolved.(children := UpdateAll(n.children))
  }

  function UpdateAll(cs: seq<Layout>): (rs: seq<Layout>)
    ensures |rs| == |cs|
    ensures forall i :: 0 <= i < |cs| ==>
              Agrees(cs[i], rs[i], Constraints) && SizeSettled(rs[i]) && rs[i].position == cs[i].position
    decreases cs
  {
    if |cs| == 0 then [] else [UpdateSize(cs[0])] + UpdateAll(cs[1..])
  }

  lemma {:induction false} UpdateFixpoint(n: Layout)
    requires SizeSettled(n)
    ensures UpdateSize(n) == n
    decreases n
  {
    if n.Horizontal? {
      UpdateAllFixpoint(n.children);
    }
  }

  lemma {:induction false} UpdateAllFixpoint(cs: seq<Layout>)
    requires forall i :: 0 <= i < |cs| ==> SizeSettled(cs[i])
    ensures UpdateAll(cs) == cs
    decreases cs
  {
    if |cs| > 0 {
      UpdateFixpoint(cs[0]);
      UpdateAllFixpoint(cs[1..]);
      assert cs == [cs[0]] + cs[1..];
    }
  }

  /** Size-settledness reads only policies, constraints and sizes. */
  lemma {:induction false} SizeSettledTransfer(a: Layout, b: Layout)
    requires Agrees(a, b, Sizes) && SizeSettled(a)
    ensures SizeSettled(b)
    decreases a
  {
    if a.Horizontal? {
      forall i | 0 <= i < |b.children|
        ensures SizeSettled(b.children[i])
      {
        SizeSettledTransfer(a.children[i], b.children[i]);
      }
    }
  }

  /** Every node of `b` holds the minima of the matching node of `a`. */
  predicate InputMinima(a: Layout, b: Layout)
    decreases a
  {
    && b.constraints.minWidth == a.constraints.minWidth
    && b.constraints.minHeight == a.constraints.minHeight
    && |Children(a)| == |Children(b)|
    && (a.Horizontal? ==> forall i :: 0 <= i < |a.children| ==> InputMinima(a.children[i], b.children[i]))
  }

  /** The max pass and then any change that keeps every constraint leave
      every minimum as it was. */
  lemma {:induction false} FramedThenAgreeing(a: Layout, b: Layout, c: Layout)
    requires Framed(a, b) && Agrees(b, c, Constraints)
    ensures InputMinima(a, c)
    decreases a
  {
    if a.Horizontal? {
      AgreesChildren(b, c, Constraints);
      forall i | 0 <= i < |a.children|
        ensures InputMinima(a.children[i], c.children[i])
      {
        FramedThenAgreeing(a.children[i], b.children[i], c.children[i]);
      }
    }
  }

  /** Every Shrink axis of `b` has the size of `a`'s minimum on that axis,
      at every node of the tree. */
  predicate ShrinkFromInput(a: Layout, b: Layout)
    decreases a
  {
    && (a.intrinsicSize.width.Shrink? ==> b.size.width == a.constraints.minWidth)
    && (a.intrinsicSize.height.Shrink? ==> b.size.height == a.constraints.minHeight)
    && |Children(a)| == |Children(b)|
    && (a.Horizontal? ==> forall i :: 0 <= i < |a.children| ==> ShrinkFromInput(a.children[i], b.children[i]))
  }

  /** A size-settled tree that kept `a`'s policies and minima sizes every
      Shrink axis from `a`'s minimum. */
  lemma {:induction false} InputMinimaSizes(a: Layout, b: Layout)
    requires InputMinima(a, b) && Agrees(a, b, Shape) && SizeSettled(b)
    ensures ShrinkFromInput(a, b)
    decreases a
  {
    if a.Horizontal? {
      AgreesChildren(a, b, Shape);
      forall i | 0 <= i < |a.children|
        ensures ShrinkFromInput(a.children[i], b.children[i])
      {
        InputMinimaSizes(a.children[i], b.children[i]);
      }
    }
  }

  // =====================================================================
  // Pass 4: `position_children` (pre-order cursor walk)
  // =====================================================================

  /** Where a horizontal node places its first child: its own position with
      twice the padding added to both coordinates. */
  function Start(n: Layout): Position
    requires n.Horizontal?
  {
    Shift(n.position, 2.0 * n.padding as real)
  }

  /** The row `cs` sits at `cursor`: its first node there, each later node
      one width plus `spacing` to the right of its predecessor, every node
      placed internally. */
  ghost predicate RowAt(cs: seq<Layout>, cursor: Position, spacing: U32)
    decreases CountAll(cs), 1
  {
    |cs| > 0 ==>
      && cs[0].position == cursor
      && Placed(cs[0])
      && RowAt(cs[1..], Position(cursor.x + cs[0].size.width + spacing as real, cursor.y), spacing)
  }

  /** Every horizontal node's children form a row from `Start`, and so on
      down the tree. */
  ghost predicate Placed(n: Layout)
    decreases Count(n), 0
  {
    n.Horizontal? ==> RowAt(n.children, Start(n), n.spacing)
  }

  /** `position_children`: places the children left to right from `Start`,
      recursing into each after placing it. Only descendants' positions
      change; the node's own position is kept. */
  function PositionChildren(n: Layout): (r: Layout)
    ensures Agrees(n, r, Sizes) && r.position == n.position
    ensures Placed(r)
    decreases Count(n), 0
  {
    if n.Empty? then
      AgreesRefl(n, Sizes);
      n
    else
      n.(children := PlaceAll(n.children, Start(n), n.spacing))
  }

  /** The cursor walk over one group of siblings from `cursor`. */
  function PlaceAll(cs: seq<Layout>, cursor: Position, spacing: U32): (rs: seq<Layout>)
    ensures |rs| == |cs|
    ensures forall i :: 0 <= i < |cs| ==> Agrees(cs[i], rs[i], Sizes)
    ensures RowAt(rs, cursor, spacing)
    decreases CountAll(cs), 1
  {
    if |cs| == 0 then []
    else
      var moved := cs[0].(position := cursor);
      CountOfNodeUpdate(cs[0], moved);
      var placed := PositionChildren(moved);
      AgreesOnNodeUpdate(cs[0], moved, Sizes);
      AgreesTrans(cs[0], moved, placed, Sizes);
      var rest := PlaceAll(cs[1..], Position(cursor.x + cs[0].size.width + spacing as real, cursor.y), spacing);
      assert ([placed] + rest)[1..] == rest;
      [placed] + rest
  }

  lemma {:induction false} PlaceFixpoint(n: Layout)
    requires Placed(n)
    ensures PositionChildren(n) == n
    decreases Count(n), 0
  {
    if n.Horizontal? {
      PlaceAllFixpoint(n.children, Start(n), n.spacing);
    }
  }

  lemma {:induction false} PlaceAllFixpoint(cs: seq<Layout>, cursor: Position, spacing: U32)
    requires RowAt(cs, cursor, spacing)
    ensures PlaceAll(cs, cursor, spacing) == cs
    decreases CountAll(cs), 1
  {
    if |cs| > 0 {
      var head, tail := cs[0], cs[1..];
      assert head.(position := cursor) == head;
      PlaceFixpoint(head);
      PlaceAllFixpoint(tail, Position(cursor.x + head.size.width + spacing as real, cursor.y), spacing);
      assert cs == [head] + tail;
    }
  }

  /** A row read index by index: the first node is at the cursor, all
      nodes share the cursor's y and are placed internally, and each later
      node's x is its predecessor's x plus the predecessor's width plus
      `spacing`. */
  lemma {:induction false} RowIndexed(cs: seq<Layout>, cursor: Position, spacing: U32)
    requires RowAt(cs, cursor, spacing)
    ensures |cs| > 0 ==> cs[0].position == cursor
    ensures forall i :: 0 <= i < |cs| ==> cs[i].position.y == cursor.y && Placed(cs[i])
    ensures forall i :: 0 < i < |cs| ==>
              cs[i].position.x == cs[i - 1].position.x + cs[i - 1].size.width + spacing as real
    decreases |cs|
  {
    if |cs| > 0 {
      var tail := cs[1..];
      var next := Position(cursor.x + cs[0].size.width + spacing as real, cursor.y);
      RowIndexed(tail, next, spacing);
      forall i | 0 < i < |cs|
        ensures cs[i].position.x == cs[i - 1].position.x + cs[i - 1].size.width + spacing as real
      {
        if i > 1 {
          assert cs[i] == tail[i - 1] && cs[i - 1] == tail[i - 2];
        }
      }
      forall i | 0 <= i < |cs|
        ensures cs[i].position.y == cursor.y && Placed(cs[i])
      {
        if i > 0 {
          assert cs[i] == tail[i - 1];
        }
      }
    }
  }

  /** The source's placement rule for a placed node: the first child at
      `Start`, each later child one predecessor-width plus `spacing` to the
      right, all at `Start`'s y. */
  lemma PlacedRow(n: Layout)
    requires n.Horizontal? && Placed(n)
    ensures |n.children| > 0 ==> n.children[0].position == Start(n)
    ensures forall i :: 0 <= i < |n.children| ==> n.children[i].position.y == Start(n).y
    ensures forall i :: 0 < i < |n.children| ==>
              n.children[i].position.x ==
                n.children[i - 1].position.x + n.children[i - 1].size.width + n.spacing as real
  {
    RowIndexed(n.children, Start(n), n.spacing);
  }
}
