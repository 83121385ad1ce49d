/**
  The node-local rules of `EmptyLayout`, a leaf: its max and position passes
  do nothing, and its min pass only reacts to `Fixed` policies.
 */
module EmptyNode {
  import opened Sizing

  /** The constraints `EmptyLayout::solve_min_constraints` leaves behind: a
      Fixed axis takes its value as minimum, Flex and Shrink axes keep
      whatever minimum they had. */
  function MinConstraints(isz: IntrinsicSize, k: BoxConstraints): (r: BoxConstraints)
    ensures r.maxWidth == k.maxWidth && r.maxHeight == k.maxHeight
    ensures isz.width.Fixed? ==> r.minWidth == isz.width.value
    ensures !isz.width.Fixed? ==> r.minWidth == k.minWidth
    ensures isz.height.Fixed? ==> r.minHeight == isz.height.value
    ensures !isz.height.Fixed? ==> r.minHeight == k.minHeight
  {
    var k1 := if isz.width.Fixed? then k.(minWidth := isz.width.value) else k;
    if isz.height.Fixed? then k1.(minHeight := isz.height.value) else k1
  }
}
