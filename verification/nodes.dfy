/**
  The layout tree. Only `EmptyLayout` and `HorizontalLayout` are modelled:
  the childless empty node and the horizontal node, whose ordered children
  are again either kind. `BlockLayout` and `VerticalLayout`
  (crystal/src/lib.rs:4, :8) are left out. Every node carries an id, a sizing
  policy, constraints, a resolved size and an absolute position.
 */
module Nodes {
  import opened Sizing

  datatype Layout =
    | Empty(id: string, size: Size, position: Position, intrinsicSize: IntrinsicSize,
            constraints: BoxConstraints)
    | Horizontal(id: string, size: Size, position: Position, spacing: U32, padding: U32,
                 constraints: BoxConstraints, children: seq<Layout>, intrinsicSize: IntrinsicSize)

  /** Diagnostics a solve may report. Declared only: neither `EmptyLayout`
      nor `HorizontalLayout` produces them. */
  datatype LayoutError =
    | OutOfBounds(parentId: string, childId: string)
    | Overflow(id: string)

  /** `Layout::children()`: an `EmptyLayout` has none. */
  function Children(n: Layout): seq<Layout>
  {
    if n.Horizontal? then n.children else []
  }

  /** `EmptyLayout::new()` */
  function NewEmpty(): Layout
  {
    Empty("", ZeroSize, Origin, DefaultIntrinsicSize, DefaultConstraints)
  }

  /** `HorizontalLayout::new()` followed by `add_children`. */
  function NewHorizontal(children: seq<Layout>): Layout
  {
    Horizontal("", ZeroSize, Origin, 0, 0, DefaultConstraints, children, DefaultIntrinsicSize)
  }

  /** The number of nodes in a tree. */
  function Count(n: Layout): (c: nat)
    ensures c >= 1
    decreases n
  {
    if n.Empty? then 1 else 1 + CountAll(n.children)
  }

  /** The number of nodes in a forest. */
  function CountAll(cs: seq<Layout>): (c: nat)
    ensures c >= |cs|
    decreases cs
  {
    if |cs| == 0 then 0 else Count(cs[0]) + CountAll(cs[1..])
  }

  /** Changing a node's own fields keeps the size of its tree. */
  lemma CountOfNodeUpdate(a: Layout, b: Layout)
    requires a.Empty? == b.Empty? && Children(a) == Children(b)
    ensures Count(a) == Count(b)
  {
  }

  // ---------------------------------------------------------------------
  // Flex factors
  // ---------------------------------------------------------------------

  /** The flex factor of a width policy, 0 for Fixed and Shrink. */
  function FlexWidthOf(c: Layout): nat
  {
    if c.intrinsicSize.width.Flex? then c.intrinsicSize.width.factor else 0
  }

  /** The sum of the Flex-width factors of a group of siblings, before it is
      narrowed to `u8`. */
  function FlexWidthTotal(cs: seq<Layout>): (total: nat)
    ensures forall i :: 0 <= i < |cs| ==> FlexWidthOf(cs[i]) <= total
    decreases cs
  {
    if |cs| == 0 then 0 else FlexWidthOf(cs[0]) + FlexWidthTotal(cs[1..])
  }

  /** The conditions under which the horizontal max pass is defined: the
      `u8` sum of the Flex-width factors does not overflow, and it is not
      zero when some child is Flex-width (which would divide 0 by 0). */
  predicate FlexSound(n: Layout)
    decreases n
  {
    n.Horizontal? ==>
      && FlexWidthTotal(n.children) <= 255
      && (forall i :: 0 <= i < |n.children| && n.children[i].intrinsicSize.width.Flex? ==>
            FlexWidthTotal(n.children) > 0)
      && (forall i :: 0 <= i < |n.children| ==> FlexSound(n.children[i]))
  }

  /** Whether the flex pass is defined does not depend on a node's own
      fields. */
  lemma FlexSoundOnNodeUpdate(a: Layout, b: Layout)
    requires FlexSound(a) && a.Empty? == b.Empty? && Children(a) == Children(b)
    ensures FlexSound(b)
  {
  }

  // ---------------------------------------------------------------------
  // Agreement of two trees on the data a pass does not write
  // ---------------------------------------------------------------------

  /** What two trees are compared on: their shape (kinds, ids, policies,
      spacing, padding), additionally their constraints, and additionally
      their sizes. Positions are never compared. */
  datatype Facet = Shape | Constraints | Sizes

  function Rank(f: Facet): nat
  {
    match f
    case Shape => 0
    case Constraints => 1
    case Sizes => 2
  }

  predicate NodeAgrees(a: Layout, b: Layout, f: Facet)
  {
    && a.Empty? == b.Empty?
    && a.id == b.id
    && a.intrinsicSize == b.intrinsicSize
    && (a.Horizontal? && b.Horizontal? ==> a.spacing == b.spacing && a.padding == b.padding)
    && (Rank(f) >= 1 ==> a.constraints == b.constraints)
    && (Rank(f) >= 2 ==> a.size == b.size)
  }

  /** `a` and `b` agree node by node on facet `f`. */
  predicate Agrees(a: Layout, b: Layout, f: Facet)
    decreases a
  {
    && NodeAgrees(a, b, f)
    && |Children(a)| == |Children(b)|
    && (a.Horizontal? ==>
          forall i :: 0 <= i < |a.children| ==> Agrees(a.children[i], b.children[i], f))
  }

  lemma {:induction false} AgreesRefl(a: Layout, f: Facet)
    ensures Agrees(a, a, f)
    decreases a
  {
    if a.Horizontal? {
      forall i | 0 <= i < |a.children| {
        AgreesRefl(a.children[i], f);
      }
    }
  }

  /** Changing only a node's own constraints, size or position keeps it in
      agreement with itself on every facet those fields do not belong to. */
  lemma AgreesOnNodeUpdate(a: Layout, b: Layout, f: Facet)
    requires NodeAgrees(a, b, f) && Children(a) == Children(b)
    ensures Agrees(a, b, f)
  {
    if a.Horizontal? {
      forall i | 0 <= i < |a.children| {
        AgreesRefl(a.children[i], f);
      }
    }
  }

  lemma {:induction false} AgreesTrans(a: Layout, b: Layout, c: Layout, f: Facet)
    requires Agrees(a, b, f) && Agrees(b, c, f)
    ensures Agrees(a, c, f)
    decreases a
  {
    if a.Horizontal? {
      forall i | 0 <= i < |a.children| {
        AgreesTrans(a.children[i], b.children[i], c.children[i], f);
      }
    }
  }

  lemma {:induction false} AgreesWeaken(a: Layout, b: Layout, f: Facet, g: Facet)
    requires Agrees(a, b, f) && Rank(g) <= Rank(f)
    ensures Agrees(a, b, g)
    decreases a
  {
    if a.Horizontal? {
      forall i | 0 <= i < |a.children| {
        AgreesWeaken(a.children[i], b.children[i], f, g);
      }
    }
  }

  /** Agreeing trees have children with equal policies (and equal
      constraints when the facet covers them). */
  lemma AgreesChildren(a: Layout, b: Layout, f: Facet)
    requires Agrees(a, b, f)
    ensures |Children(a)| == |Children(b)|
    ensures forall i :: 0 <= i < |Children(a)| ==>
              && Children(a)[i].intrinsicSize == Children(b)[i].intrinsicSize
              && (Rank(f) >= 1 ==> Children(a)[i].constraints == Children(b)[i].constraints)
  {
    if a.Horizontal? {
      forall i | 0 <= i < |a.children|
        ensures a.children[i].intrinsicSize == b.children[i].intrinsicSize
        ensures Rank(f) >= 1 ==> a.children[i].constraints == b.children[i].constraints
      {
        assert Agrees(a.children[i], b.children[i], f);
      }
    }
  }

  /** The flex total of a group depends only on the children's policies. */
  lemma {:induction false} FlexTotalOfAgreeing(cs: seq<Layout>, ds: seq<Layout>)
    requires |cs| == |ds|
    requires forall i :: 0 <= i < |cs| ==> cs[i].intrinsicSize == ds[i].intrinsicSize
    ensures FlexWidthTotal(cs) == FlexWidthTotal(ds)
    decreases cs
  {
    if |cs| > 0 {
      FlexTotalOfAgreeing(cs[1..], ds[1..]);
    }
  }

  /** Whether the flex pass is defined depends only on a tree's shape. */
  lemma {:induction false} FlexSoundTransfer(a: Layout, b: Layout)
    requires FlexSound(a) && Agrees(a, b, Shape)
    ensures FlexSound(b)
    decreases a
  {
    if a.Horizontal? {
      FlexTotalOfAgreeing(a.children, b.children);
      forall i | 0 <= i < |a.children| {
        FlexSoundTransfer(a.children[i], b.children[i]);
      }
    }
  }
}
