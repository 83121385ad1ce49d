/**
  The sizing vocabulary of the `crystal` layout engine: how large a node
  tries to be on each axis, the bounds a parent imposes on it, and the
  geometry a solve finally assigns. Floating-point values are modelled as
  `real`; `u8` and `u32` are subset types of `nat`.
 */
module Sizing {

  /** An unsigned 8-bit integer; flex factors are `u8`. */
  type U8 = x: nat | x < 256

  /** An unsigned 32-bit integer; spacing and padding are `u32`. */
  type U32 = x: nat | x < 0x1_0000_0000

  /** How large a node tries to be along one axis. */
  datatype BoxSizing =
    | Fixed(value: real)
      /** As small as possible. */
    | Shrink
      /** As large as possible; the factor weighs it against Flex siblings. */
    | Flex(factor: U8)

  /** One sizing policy per axis. */
  datatype IntrinsicSize = IntrinsicSize(width: BoxSizing, height: BoxSizing)

  /** The minimum and maximum extents of a node: scratch state of a solve. */
  datatype BoxConstraints = BoxConstraints(maxWidth: real, maxHeight: real, minHeight: real, minWidth: real)

  datatype Size = Size(width: real, height: real)

  datatype Position = Position(x: real, y: real)

  /** `BoxSizing::default()` */
  const DefaultSizing: BoxSizing := Shrink

  /** `IntrinsicSize::default()` */
  const DefaultIntrinsicSize: IntrinsicSize := IntrinsicSize(DefaultSizing, DefaultSizing)

  /** `BoxContraints::default()`, which is also `BoxContraints::new()` */
  const DefaultConstraints: BoxConstraints := BoxConstraints(0.0, 0.0, 0.0, 0.0)

  /** `Size::default()` */
  const ZeroSize: Size := Size(0.0, 0.0)

  /** `Position::default()` */
  const Origin: Position := Position(0.0, 0.0)

  /** The three-way switch `update_size` applies on one axis. */
  function Resolve(sizing: BoxSizing, min: real, max: real): real
  {
    match sizing
    case Fixed(v) => v
    case Flex(_) => max
    case Shrink => min
  }

  /** `position += d`: the scalar is added to both coordinates. */
  function Shift(p: Position, d: real): Position
  {
    Position(p.x + d, p.y + d)
  }

  /** `f32::max` on ordered values. */
  function Max(a: real, b: real): real
  {
    if a >= b then a else b
  }

  /** The defaults the engine starts every fresh node from: `Shrink` on both
      axes and all four constraints zero, so a fresh node resolves to its
      (zero) minimum on each axis whatever its maximum. */
  lemma DefaultsAreShrinkAndZero(max: real)
    ensures DefaultIntrinsicSize.width == Shrink && DefaultIntrinsicSize.height == Shrink
    ensures DefaultConstraints.minWidth == 0.0 && DefaultConstraints.minHeight == 0.0
    ensures DefaultConstraints.maxWidth == 0.0 && DefaultConstraints.maxHeight == 0.0
    ensures Resolve(DefaultSizing, DefaultConstraints.minWidth, max) == 0.0
  {
  }
}
