/**
  The sizing setters `helium` widgets share: `impl_modifiers!` applies them
  to a widget's `modifiers.intrinsic_size`, `impl_layout!` to its
  `layout.intrinsic_size`, with the same bodies. Each builder call becomes a
  `Modifier` applied to an `IntrinsicSize`.
 */
module Modifiers {
  import Sizing

  datatype Modifier =
    | Fill
    | Flex(factor: Sizing.U8)
    | Fit
    | FillWidth
    | FillHeight
    | FixedWidth(width: real)
    | FixedHeight(height: real)
    | FitWidth
    | FitHeight
    | FlexWidth(factor: Sizing.U8)
    | FlexHeight(factor: Sizing.U8)

  datatype Axis = Width | Height

  /** The axes each setter assigns, as the macros are written: the
      two-axis setters assign both, the `*_width` setters the width, the
      `*_height` setters the height — except `flex_width`, which assigns
      the height. */
  function Writes(m: Modifier): set<Axis>
  {
    match m
    case Fill => {Width, Height}
    case Flex(_) => {Width, Height}
    case Fit => {Width, Height}
    case FillWidth => {Width}
    case FixedWidth(_) => {Width}
    case FitWidth => {Width}
    case FlexWidth(_) => {Height}
    case FillHeight => {Height}
    case FixedHeight(_) => {Height}
    case FitHeight => {Height}
    case FlexHeight(_) => {Height}
  }

  /** The policy a setter assigns to the axes it writes. */
  function Assigned(m: Modifier): Sizing.BoxSizing
  {
    match m
    case Fill => Sizing.Flex(1)
    case FillWidth => Sizing.Flex(1)
    case FillHeight => Sizing.Flex(1)
    case Flex(f) => Sizing.Flex(f)
    case FlexWidth(f) => Sizing.Flex(f)
    case FlexHeight(f) => Sizing.Flex(f)
    case Fit => Sizing.Shrink
    case FitWidth => Sizing.Shrink
    case FitHeight => Sizing.Shrink
    case FixedWidth(v) => Sizing.Fixed(v)
    case FixedHeight(v) => Sizing.Fixed(v)
  }

  /** One builder call, as the macro bodies are written. */
  function Apply(s: Sizing.IntrinsicSize, m: Modifier): (r: Sizing.IntrinsicSize)
    ensures r.width == (if Width in Writes(m) then Assigned(m) else s.width)
    ensures r.height == (if Height in Writes(m) then Assigned(m) else s.height)
  {
    match m
    case Fill => s.(width := Sizing.Flex(1), height := Sizing.Flex(1))
    case Flex(f) => s.(width := Sizing.Flex(f), height := Sizing.Flex(f))
    case Fit => s.(width := Sizing.Shrink, height := Sizing.Shrink)
    case FillWidth => s.(width := Sizing.Flex(1))
    case FillHeight => s.(height := Sizing.Flex(1))
    case FixedWidth(v) => s.(width := Sizing.Fixed(v))
    case FixedHeight(v) => s.(height := Sizing.Fixed(v))
    case FitWidth => s.(width := Sizing.Shrink)
    case FitHeight => s.(height := Sizing.Shrink)
    case FlexWidth(f) => s.(height := Sizing.Flex(f))
    case FlexHeight(f) => s.(height := Sizing.Flex(f))
  }

  /** A chain of builder calls, applied left to right. */
  function ApplyAll(s: Sizing.IntrinsicSize, ms: seq<Modifier>): Sizing.IntrinsicSize
    decreases |ms|
  {
    if |ms| == 0 then s else ApplyAll(Apply(s, ms[0]), ms[1..])
  }

  /** Repeating a setter changes nothing more. */
  lemma ApplyIdempotent(s: Sizing.IntrinsicSize, m: Modifier)
    ensures Apply(Apply(s, m), m) == Apply(s, m)
  {
  }

  /** A later setter that writes every axis an earlier one wrote overrides
      it entirely. */
  lemma LastWriteWins(s: Sizing.IntrinsicSize, m1: Modifier, m2: Modifier)
    requires Writes(m1) <= Writes(m2)
    ensures Apply(Apply(s, m1), m2) == Apply(s, m2)
  {
  }

  /** Setters on different axes can be called in either order. */
  lemma DisjointSettersCommute(s: Sizing.IntrinsicSize, m1: Modifier, m2: Modifier)
    requires Writes(m1) !! Writes(m2)
    ensures Apply(Apply(s, m1), m2) == Apply(Apply(s, m2), m1)
  {
  }

  /** `fill` is `flex(1)`, `fill_width` is `flex` on the width alone, and
      `fit` restores the default policies. */
  lemma FillFitAreFlexAndDefault(s: Sizing.IntrinsicSize)
    ensures Apply(s, Fill) == Apply(s, Flex(1))
    ensures Apply(s, FillWidth).width == Apply(s, Flex(1)).width && Apply(s, FillWidth).height == s.height
    ensures Apply(s, Fit) == Sizing.DefaultIntrinsicSize
  {
  }

  /** Whatever the starting policies, the last setter per axis decides
      that axis: a chain ending in `fixed_width(w)` then `fixed_height(h)`
      gives exactly Fixed(w) × Fixed(h). */
  lemma {:induction false} ChainEndsDecide(s: Sizing.IntrinsicSize, ms: seq<Modifier>, w: real, h: real)
    ensures ApplyAll(s, ms + [FixedWidth(w), FixedHeight(h)]) ==
              Sizing.IntrinsicSize(Sizing.Fixed(w), Sizing.Fixed(h))
    decreases |ms|
  {
    if |ms| > 0 {
      assert (ms + [FixedWidth(w), FixedHeight(h)])[1..] == ms[1..] + [FixedWidth(w), FixedHeight(h)];
      ChainEndsDecide(Apply(s, ms[0]), ms[1..], w, h);
    } else {
      var chain := [FixedWidth(w), FixedHeight(h)];
      assert ms + chain == chain && chain[1..] == [FixedHeight(h)] && chain[1..][1..] == [];
      var s1 := Apply(s, FixedWidth(w));
      assert ApplyAll(s, chain) == ApplyAll(s1, [FixedHeight(h)]);
      assert ApplyAll(s1, [FixedHeight(h)]) == ApplyAll(Apply(s1, FixedHeight(h)), []);
    }
  }

  /** As written, `flex_width(f)` is the same call as `flex_height(f)`: it
      leaves the width alone, so `flex_width(f)` followed by
      `flex_height(f)` is not `flex(f)` — from the defaults the width stays
      Shrink. */
  lemma FlexWidthSetsHeight(s: Sizing.IntrinsicSize, f: Sizing.U8)
    ensures Apply(s, FlexWidth(f)) == Apply(s, FlexHeight(f))
    ensures Apply(s, FlexWidth(f)).width == s.width
    ensures ApplyAll(Sizing.DefaultIntrinsicSize, [FlexWidth(f), FlexHeight(f)]).width == Sizing.Shrink
    ensures ApplyAll(Sizing.DefaultIntrinsicSize, [FlexWidth(f), FlexHeight(f)]) !=
              Apply(Sizing.DefaultIntrinsicSize, Flex(f))
  {
    var chain := [FlexWidth(f), FlexHeight(f)];
    assert chain[1..] == [FlexHeight(f)] && chain[1..][1..] == [];
    var d := Sizing.DefaultIntrinsicSize;
    var s1 := Apply(d, FlexWidth(f));
    assert ApplyAll(d, chain) == ApplyAll(s1, [FlexHeight(f)]);
    assert ApplyAll(s1, [FlexHeight(f)]) == ApplyAll(Apply(s1, FlexHeight(f)), []);
  }

  /** The axes each setter evidently means to assign: `flex_width` the
      width, like the other `*_width` setters. */
  function IntendedWrites(m: Modifier): set<Axis>
  {
    if m.FlexWidth? then {Width} else Writes(m)
  }

  /** The setters with `flex_width` assigning the width. */
  function ApplyIntended(s: Sizing.IntrinsicSize, m: Modifier): (r: Sizing.IntrinsicSize)
    ensures r.width == (if Width in IntendedWrites(m) then Assigned(m) else s.width)
    ensures r.height == (if Height in IntendedWrites(m) then Assigned(m) else s.height)
  {
    match m
    case FlexWidth(f) => s.(width := Sizing.Flex(f))
    case _ => Apply(s, m)
  }

  /** With `flex_width` corrected, every `*_width` setter writes exactly
      the width, and `flex_width(f)` then `flex_height(f)` is `flex(f)`,
      like `fill_width` then `fill_height` is `fill`. */
  lemma IntendedFlexWidth(s: Sizing.IntrinsicSize, f: Sizing.U8)
    ensures forall m: Modifier :: (m.FillWidth? || m.FixedWidth? || m.FitWidth? || m.FlexWidth?) ==>
              IntendedWrites(m) == {Width}
    ensures ApplyIntended(ApplyIntended(s, FlexWidth(f)), FlexHeight(f)) == Apply(s, Flex(f))
    ensures Apply(Apply(s, FillWidth), FillHeight) == Apply(s, Fill)
  {
  }
}
