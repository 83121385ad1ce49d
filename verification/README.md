# Helium layout core in Dafny

This project models the layout core of the Helium UI toolkit.

**The `crystal` solver** (`LayoutSolver::solve`). Every node of a layout tree has:
- a sizing policy per axis: `Fixed`, `Shrink` or `Flex(u8)`;
- box constraints;
- a resolved size and an absolute position.

`solve` sets the root's maximum width and height to the window's and then runs four passes over the tree:
1. the minimum constraints;
2. the maximum constraints, which distribute the width among Flex siblings by factor;
3. the sizes;
4. the positions.

Only `EmptyLayout` and `HorizontalLayout` are modelled; `BlockLayout` and `VerticalLayout` (crystal/src/lib.rs:4, :8) are left out. It also covers the tree walk `LayoutIter` and the sizing vocabulary with its defaults.

**The `helium` widget tree.** The model covers:
- the `WidgetIter` walk and `get` by id;
- the per-frame `update`;
- the click dispatch;
- the sizing setters the `impl_modifiers!` and `impl_layout!` macros generate;
- the text field's `process_key`.

Each module is a set of pure functions over immutable datatypes:

| file | module | what |
|---|---|---|
| sizing.dfy | `Sizing` | `BoxSizing`, `IntrinsicSize`, `BoxContraints`, `Size`, `Position`, and their defaults |
| nodes.dfy | `Nodes` | the `Layout` tree, node counts, the `u8` flex total, agreement of trees on a facet |
| empty.dfy | `EmptyNode` | the min-pass rule of an `EmptyLayout` |
| horizontal.dfy | `HorizontalNode` | `fixed_size_sum`, the horizontal min-pass rule, flex shares, the constraints and space handed to a child |
| passes.dfy | `Passes` | the four passes as tree-to-tree functions, each with a "settled" predicate and a fixpoint lemma |
| solver.dfy | `Solver` | `solve`, its idempotence, and what it computes for children of a horizontal root |
| traversal.dfy | `Traversal` | `LayoutIter` |
| widgets.dfy | `Widgets` | `WidgetIter`, `get`, `update`, `dispatch_click` |
| modifiers.dfy | `Modifiers` | the sizing setters |
| textfield.dfy | `TextField` | `process_key` |
| seqs.dfy | `Seqs` | `Option` and sequence reversal |
| scenarios.dfy | `Scenarios` | the source's unit-test trees, solved |

Values are modelled as follows:
- `f32` is `real`, so there is no rounding.
- `u8` and `u32` are subset types of `nat`.
- The `u8` sum of flex factors is a precondition, `FlexSound`: the sum is at most 255, and positive when some child is Flex-width. Under that precondition the division in the max pass is exact and defined.

## Model

| member | source | states |
|---|---|---|
| Sizing.DefaultsAreShrinkAndZero | crystal/src/lib.rs:114-158 | A fresh policy is `Shrink` on both axes. Fresh constraints are all zero. A `Shrink` axis with zero constraints resolves to 0 whatever its maximum. |
| Nodes.FlexWidthTotal | crystal/src/horizontal.rs:145-156 | The group's flex total bounds every child's Flex-width factor. |
| EmptyNode.MinConstraints | crystal/src/empty.rs:80-103 | An empty node's min pass writes a Fixed axis's value into that axis's minimum. Flex and Shrink axes keep their minimum. The maxima are never touched. |
| HorizontalNode.FixedSizeSum | crystal/src/horizontal.rs:32-53 | The fixed-size summary's height is non-negative. It is at least every Fixed height, and it is either 0 or one child's Fixed height. Its width is 0 when no child is Fixed-width. |
| HorizontalNode.FixedSizeSumSplit | crystal/src/horizontal.rs:32-53 | Splitting the children into two runs: the summary's width is the sum of the runs' widths, and its height is the larger of their heights. |
| HorizontalNode.MinConstraints | crystal/src/horizontal.rs:111-141 | Per axis, a horizontal node's min pass writes: the Fixed value, or the children's fixed summary for Shrink. Flex keeps the old minimum. The maxima are kept. |
| HorizontalNode.SharesProportional | crystal/src/horizontal.rs:163-173 | Any two flex shares of one width are in the ratio of their factors. |
| HorizontalNode.SharesAreFraction | crystal/src/horizontal.rs:145-173 | The shares of a group add up to the group's factor total over the divisor, times the width. |
| HorizontalNode.SharesFillWidth | crystal/src/horizontal.rs:145-173 | Divided by their own total, a group's flex shares add up to exactly the width. |
| HorizontalNode.ChildConstraintsSettle | crystal/src/horizontal.rs:160-187 | Handing a child the constraints it already got from the max pass changes nothing. |
| Passes.SolveMinConstraints | crystal/src/horizontal.rs:111-141 | The min pass leaves the node min-settled. It writes only the node's own minimum: not the maxima, not the children, not the shape. It returns that minimum. Flex axes, and Shrink axes of empty nodes, keep their old minimum. |
| Passes.MinFixpoint | crystal/src/lib.rs:31 | A min-settled node is unchanged by the min pass. |
| Passes.MinSettledTransfer | crystal/src/lib.rs:31-34 | Being min-settled survives any change that keeps the node's constraints and the policies of it and its children. |
| Passes.SolveMaxConstraints | crystal/src/horizontal.rs:143-192 | The max pass keeps the node's own constraints, size, position and shape. Each child gets its factor's share of `space.width` as max width if Flex-width. Its max height becomes `space.height` if Flex-height, or its value if Fixed-height. At every depth, every node keeps its minima, size and position, its max width unless Flex-width, and its max height if Shrink-height (`Framed`). The tree ends max-settled for `space`. |
| Passes.MaxAll | crystal/src/horizontal.rs:158-191 | Each child of a group, in order, holds the constraints its parent hands it and is settled for the space it was handed. It and every node below it keep all the max pass does not write. |
| Passes.FramedThenAgreeing | crystal/src/horizontal.rs:115-191 | The max pass followed by passes that keep every constraint leaves every node's minima as they were. |
| Passes.InputMinimaSizes | crystal/src/horizontal.rs:194-224 | Once sizes are resolved in a tree that kept its input minima, every Shrink axis at every depth has the size of its input minimum. |
| Passes.MaxFixpoint | crystal/src/lib.rs:32 | A max-settled tree is unchanged by the max pass in the same space. |
| Passes.MaxSettledTransfer | crystal/src/lib.rs:32-34 | Being max-settled survives any change that keeps every constraint and policy in the tree. |
| Passes.UpdateSize | crystal/src/horizontal.rs:194-224 | The size pass keeps the shape, every constraint and the root's position. Afterwards every node of the tree is size-settled: Fixed gives its value, Flex its max constraint, Shrink its min constraint. |
| Passes.UpdateFixpoint | crystal/src/lib.rs:33 | A size-settled tree is unchanged by the size pass. |
| Passes.SizeSettledTransfer | crystal/src/lib.rs:33-34 | Being size-settled survives any change that keeps sizes, constraints and policies. |
| Passes.PositionChildren | crystal/src/horizontal.rs:226-237 | The position pass changes only the positions of descendants. The tree ends placed: every row of children sits where the cursor walk puts it. |
| Passes.PlaceAll | crystal/src/horizontal.rs:230-235 | Placing a group from a cursor keeps each child's sizes and leaves the group as a row from that cursor. |
| Passes.PlaceFixpoint | crystal/src/lib.rs:34 | A placed tree is unchanged by the position pass. |
| Passes.RowIndexed | crystal/src/horizontal.rs:230-235 | In a row, the first child sits at the cursor and every child shares the cursor's y. Each later child's x is the previous child's x plus its width plus the spacing. |
| Passes.PlacedRow | crystal/src/horizontal.rs:226-235 | In a placed horizontal node, the first child sits at the node's position shifted by twice the padding on both coordinates. The children form a row with the spacing. |
| Solver.Bound | crystal/src/lib.rs:26-27 | `solve`'s first step sets the root's maxima to the window and changes nothing else. |
| Solver.Constrained | crystal/src/lib.rs:21-32 | After setting the root's maxima and the first two passes, the tree is min- and max-settled and has the input's shape. Each child of a horizontal root holds the constraints the max pass hands it. Below the root, nothing but what the max pass writes has changed. |
| Solver.Solve | crystal/src/lib.rs:21-37 | `solve` keeps the input's shape and root position and sets the root's maxima to the window. It leaves the tree settled for all four passes. The root's size is its Fixed value, the window for Flex, and for Shrink the children's fixed summary (horizontal) or its own minimum (empty), so a Shrink root can end up larger than the window. Every node below the root keeps the minima it came with. |
| Solver.SolveIdempotent | crystal/src/lib.rs:21-37 | Solving a solved tree again in the same window returns it unchanged. |
| Solver.SolvedChildSize | crystal/src/horizontal.rs:158-224 | A child of a solved horizontal root gets on each axis: its Fixed value, or its flex share of the window width (Flex width), or the window height (Flex height). On a Shrink axis it keeps the minimum it came with. |
| Solver.SolvedFlexWidth | crystal/src/horizontal.rs:163-173 | A Flex-width child of a solved horizontal root is its factor's share of the window width. |
| Solver.FlexChildrenFillWindow | crystal/src/horizontal.rs:145-173 | The widths of the Flex-width children of a solved horizontal root add up to exactly the window width. |
| Solver.FlexChildrenProportional | crystal/src/horizontal.rs:163-173 | Flex-width children of a solved horizontal root have widths in the ratio of their factors. |
| Solver.NoSpaceBelow | crystal/src/horizontal.rs:158-190 | A settled node handed space of height 0 gives every Flex-height node below it, at every depth, height 0. With space of width 0, every Flex-width node below it has width 0. |
| Solver.NoSpaceBelowChildren | crystal/src/horizontal.rs:158-190 | Below any child of a solved horizontal root, at every depth, a Flex-height node has height 0. Below a child that is not Flex-width, a Flex-width node has width 0. |
| Solver.SolvedShrinkBelowRoot | crystal/src/horizontal.rs:115-224 | Every Shrink axis of every node under a child of a solved horizontal root resolves to the minimum that node came with, because no pass writes a minimum below the root. |
| Solver.SolvedGrandchildShrink | crystal/src/horizontal.rs:115-224 | A Shrink-width grandchild of a solved horizontal root is as wide as its input minimum width. |
| Solver.SpaceBounds | crystal/src/horizontal.rs:158-190 | Inside a settled node handed some space, a Flex-height child takes the space's height. A Flex-width child is 0 wide when the space has width 0. |
| Traversal.PreOrder | crystal/src/lib.rs:83-105 | The layout walk has one entry per node and starts with the root. |
| Traversal.Next | crystal/src/lib.rs:90-104 | `next` yields `None` exactly on an empty stack. Otherwise it yields the head of what is pending, and what is left pending is the rest. |
| Traversal.NextPending | crystal/src/lib.rs:90-104 | Popping a node and pushing its children reversed leaves the rest of its pre-order ahead of the stack below. |
| Traversal.Collect | crystal/src/lib.rs:83-105 | Draining `iter()` ends and yields the pre-order, with siblings in declared order: one entry per node, the root first. |
| Traversal.InPreOrder | crystal/src/lib.rs:83-105 | A node is in the walk exactly when it is the root or is in the walk of one of the root's children. |
| Traversal.EmptyIterYieldsItself | crystal/src/empty.rs:74-78 | An empty node's iterator yields the node and then ends. |
| Traversal.SecondIsFirstChild | crystal/src/lib.rs:99 | The second node the layout walk yields is the root's first child. |
| Widgets.WidgetOrder | helium/src/widgets/mod.rs:162-179 | The widget walk starts with the widget itself. |
| Widgets.InWidgetOrder | helium/src/widgets/mod.rs:162-179 | A widget is in the walk exactly when it is the root or is in the walk of one of the root's children, so `get` searches the whole tree and nothing else. |
| Widgets.Next | helium/src/widgets/mod.rs:162-168 | `next` yields `None` exactly on an empty stack. Otherwise it yields the head of what is pending, and what is left pending is the rest. |
| Widgets.FindId | helium/src/widgets/mod.rs:42-49 | The lookup is `None` exactly when no entry has the id. Otherwise it is the first entry with that id. |
| Widgets.Get | helium/src/widgets/mod.rs:42-49 | `get(id)` returns a widget of the tree with that id, namely the first in walk order, or `None` exactly when no widget of the tree has that id. |
| Widgets.WalkLength | helium/src/widgets/mod.rs:162-179 | The widget walk has one entry per widget of the tree. |
| Widgets.Collect | helium/src/widgets/mod.rs:162-179 | Draining `iter()` ends and yields the widget walk, one entry per widget. |
| Widgets.Update | helium/src/widgets/mod.rs:82-87 | `update` ticks the widget once, and each direct child once only if `children_mut` hands the children out. It changes nothing else. |
| Widgets.UpdateTicksOnePerLevel | helium/src/widgets/mod.rs:82-87 | One `update` adds exactly one tick for the widget, plus one per child if `children_mut` hands the children out. |
| Widgets.UpdateDefaultTicksItself | helium/src/widgets/mod.rs:76-87 | With the trait's default `children_mut`, which none of button, circle, container, hstack, rect, spacer, text, text_field and vstack overrides, `update` ticks the widget alone, and the walk below it is unchanged. |
| Widgets.UpdateSkipsGrandchildren | helium/src/widgets/mod.rs:82-87 | `update` leaves every grandchild unchanged. |
| Widgets.DispatchClick | helium/src/widgets/mod.rs:90-104 | A widget is clicked, once, exactly when the left button is pressed. Nothing else changes. |
| Widgets.SecondIsLastChild | helium/src/widgets/mod.rs:162-168 | The second widget the walk yields is the LAST child, unlike the layout walk. |
| Modifiers.Apply | helium/src/widgets/mod.rs:207-267 | Each setter gives its policy to exactly the axes it writes. The other axis is kept. |
| Modifiers.ApplyIdempotent | helium/src/widgets/mod.rs:207-267 | Calling a setter twice is the same as calling it once. |
| Modifiers.LastWriteWins | helium/src/widgets/mod.rs:207-267 | A setter that writes every axis an earlier setter wrote overrides it entirely. |
| Modifiers.DisjointSettersCommute | helium/src/widgets/mod.rs:207-267 | Setters on disjoint axes commute. |
| Modifiers.FillFitAreFlexAndDefault | helium/src/widgets/mod.rs:209-225 | `fill` equals `flex(1)`. `fill_width` is `flex(1)` on the width alone. `fit` restores the default policy. |
| Modifiers.ChainEndsDecide | helium/src/widgets/mod.rs:207-267 | Any chain of setters ending in `fixed_width(w)` then `fixed_height(h)` gives exactly Fixed(w) × Fixed(h). |
| Modifiers.FlexWidthSetsHeight | helium/src/widgets/mod.rs:257-260 | As written, `flex_width(f)` equals `flex_height(f)` and leaves the width alone. From the defaults, `flex_width(f)` then `flex_height(f)` keeps the width Shrink, so it differs from `flex(f)`. |
| Modifiers.ApplyIntended | helium/src/widgets/mod.rs:257-260 | With `flex_width` corrected, each setter gives its policy to exactly its intended axes. |
| Modifiers.IntendedFlexWidth | helium/src/widgets/mod.rs:257-260 | With `flex_width` corrected, every `*_width` setter writes exactly the width, and `flex_width(f)` then `flex_height(f)` equals `flex(f)`. |
| TextField.ProcessKey | helium/src/widgets/text_field.rs:54-89 | Per key: a character key appends its text, starting from empty when the field has none. Backspace drops the last character, leaves `None` when exactly one character was left, and keeps `None` and empty text as they are. Space appends a blank only to existing text. Every other key changes nothing. |
| TextField.ProcessKeyKeepsNoEmptyText | helium/src/widgets/text_field.rs:54-89 | A field never holds empty text, as long as character keys carry text. |
| TextField.BackspaceUndoesCharacter | helium/src/widgets/text_field.rs:56-77 | Typing a character and then Backspace restores the field, including back to `None`. |
| TextField.TypingAppends | helium/src/widgets/text_field.rs:56-66 | Typing a word character by character appends it to what the field shows, and a typed word leaves the field non-empty. |
| TextField.TypedContent | helium/src/widgets/text_field.rs:56-66 | What the field shows after typing a word is what it showed before, followed by the word. |
| TextField.BackspacesDropSuffix | helium/src/widgets/text_field.rs:70-77 | n Backspaces on a text longer than n drop exactly the last n characters. |
| TextField.TypesHiMom | helium/src/widgets/text_field.rs:131-152 | Typing "Hi mom!" into a fresh field gives "Hi mom!". |
| TextField.BackspacesOnHello | helium/src/widgets/text_field.rs:154-171 | Two Backspaces on "Hello" leave "Hel". |
| Scenarios.EmptyFlexFillsWindow | crystal/src/empty.rs:144-154 | An empty Flex × Flex root is the window's size. |
| Scenarios.EmptyFixedIgnoresWindow | crystal/src/empty.rs:157-167 | An empty Fixed(200) × Fixed(125) root is 200 × 125 in any window. |
| Scenarios.EmptyDefaultIsZero | crystal/src/empty.rs:170-177 | A fresh empty root is 0 × 0 in any window. |
| Scenarios.FixedChildrenSumUp | crystal/src/horizontal.rs:246-278 | A Shrink root over Fixed 400 × 200 and 500 × 350 children is 900 × 350, and the children keep their sizes. |
| Scenarios.FlexFactorsSplitWidth | crystal/src/horizontal.rs:314-352 | Flex(1) and Flex(3) children in an 800 × 400 window are 200 × 400 and 600 × 400, placed at x = 0 and x = 200. |
| Scenarios.EqualFlexChildrenTakeFullHeight | crystal/src/horizontal.rs:281-305 | Two Flex(1) children in an 800 × 800 window are each 400 × 800. The test expects half the window; the code does not give that. |
| Scenarios.MixedChildren | crystal/src/lib.rs:166-190 | The library test's tree in a 1000 × 1000 window is 250 × 250, with children 250 × 1000, 1000 × 20 and 0 × 250. The test expects 250 × 250 and 0 × 20 for the first two. |
| Scenarios.MixedShapeSolves | crystal/src/lib.rs:166-190 | Any tree with the library test's policies and child minima gets those sizes in a 1000 × 1000 window. |

## Left out

- `collect_errors` and the `LayoutError` values: the trait declares `collect_errors`, but neither `EmptyLayout` nor `HorizontalLayout` implements it. `LayoutError` is declared, and `Solve` returns only the tree.
- `BlockLayout` and `VerticalLayout` (crystal/src/lib.rs:4, :8), and the `LayoutType` selector: their modules are not part of this model.
- `AxisAlignment`: declared, but neither `EmptyLayout` nor `HorizontalLayout` reads it.
- `sort_children`: it is commented out in `solve`.
- Widget `tick`, `click`, `draw` and `scroll`: they are widget-specific, so `update` and `dispatch_click` count calls to `tick` and `click` instead.
- `dispatch_event`: it needs the cursor position, the layout tree's bounds and the window events.
- Widget construction, id generation and the layout builder: out of scope.
- Solver.Solve: `f32` rounding, infinities and NaN are not modelled (values are `real`).
- Solver.Solve: requires `FlexSound` instead of modelling a `u8` overflow of the flex total. It also requires a positive total when some child is Flex-width, instead of modelling the panic or NaN of 0/0.
- Passes.UpdateSize: the contract says the root's position is kept but says nothing about descendants' positions. Tree agreement never compares positions.
- Widgets.Update: a `children_mut` override is assumed to hand out the same children `children` shows. None of button, circle, container, hstack, rect, spacer, text, text_field and vstack overrides it; other widgets are assumed to keep the default. `TextField` and `Container` override `children` only.
- TextField.ProcessKey: a character key replaces the `Text` child with a fresh one (a new id, the default font size). Backspace and Space edit it in place. The model keeps only the string.
- TextField.ProcessKey: text is a sequence of single-byte characters. `String::len` counts UTF-8 bytes, so a one-character multi-byte text would not take the `len == 1` branch in the source.
- TextField.ProcessKey: `winit`'s keys are reduced to character keys, Backspace, Space, any other named key, and the unidentified and dead keys.

Differences between the code and its design intent, where the model follows the code:
- The min pass sets only the node's own minimum. It does not recurse into children.
- A horizontal node hands each child a space of height 0. Only the root's children see the window's height.
- Padding shifts the first child by twice the padding, on both coordinates.
- An empty Shrink node keeps whatever minimum it had.
- A Flex axis keeps its old minimum in both node kinds, rather than a minimum of 0.
- There is no special case for a zero flex total (see the `FlexSound` line above).

## Findings

| source | as written | input that shows it | evidently intended | confidence | as-written member | corrected member |
|---|---|---|---|---|---|---|
| helium/src/widgets/mod.rs:257-260 (and 320-323) | `flex_width(f)` assigns `Flex(f)` to the height | from the default policies, `flex_width(2)` then `flex_height(2)` leaves the width `Shrink` | `flex_width(f)` assigns `Flex(f)` to the width, like the other `*_width` setters | high, not executed | Modifiers.FlexWidthSetsHeight | Modifiers.IntendedFlexWidth |
