/**
  The widget tree of `helium`: `WidgetIter` and `get`, the per-frame
  `update`, and the `dispatch_click` decision. A widget is modelled by its
  id, its children and whether `children_mut` hands them out; what its
  `tick` and `click` hooks do is widget-specific, so the model only counts
  how often each was called.
 */
module Widgets {
  import opened Seqs

  /** `children` is what the widget's `children()` shows. `sharesChildrenMut`
      says whether it also overrides `children_mut()` to hand out those
      same children; the trait's default hands out none. None of button, circle, container, hstack, rect, spacer, text, text_field and vstack
      overrides it; other widgets are assumed to keep the default. */
  datatype Widget = Widget(id: string, children: seq<Widget>, sharesChildrenMut: bool, ticks: nat, clicks: nat)

  /** The order `WidgetIter` yields a tree in: the widget, then its
      children's subtrees from the last child to the first. */
  function WidgetOrder(w: Widget): (r: seq<Widget>)
    ensures |r| >= 1 && r[0] == w
    decreases w
  {
    [w] + SiblingsFromLast(w.children)
  }

  /** The orders of a group of siblings, last sibling first. */
  function SiblingsFromLast(cs: seq<Widget>): seq<Widget>
    decreases cs
  {
    if |cs| == 0 then [] else WidgetOrder(cs[|cs| - 1]) + SiblingsFromLast(cs[..|cs| - 1])
  }

  /** Stacking `b` on top of `a` yields `b`'s widgets first. */
  lemma {:induction false} SiblingsAppend(a: seq<Widget>, b: seq<Widget>)
    ensures SiblingsFromLast(a + b) == SiblingsFromLast(b) + SiblingsFromLast(a)
    decreases |b|
  {
    if |b| == 0 {
      assert a + b == a;
    } else {
      var b' := b[..|b| - 1];
      assert (a + b)[..|a + b| - 1] == a + b';
      assert (a + b)[|a + b| - 1] == b[|b| - 1];
      SiblingsAppend(a, b');
    }
  }

  /** The walk visits exactly the widget and the widgets of its children's
      walks. */
  lemma InWidgetOrder(w: Widget, x: Widget)
    ensures x in WidgetOrder(w) <==>
              x == w || exists i :: 0 <= i < |w.children| && x in WidgetOrder(w.children[i])
  {
    InSiblingsFromLast(w.children, x);
  }

  lemma {:induction false} InSiblingsFromLast(cs: seq<Widget>, x: Widget)
    ensures x in SiblingsFromLast(cs) <==> exists i :: 0 <= i < |cs| && x in WidgetOrder(cs[i])
    decreases |cs|
  {
    if |cs| > 0 {
      var front := cs[..|cs| - 1];
      InSiblingsFromLast(front, x);
      if x in SiblingsFromLast(front) {
        var i :| 0 <= i < |front| && x in WidgetOrder(front[i]);
        assert x in WidgetOrder(cs[i]);
      }
      if exists i :: 0 <= i < |cs| && x in WidgetOrder(cs[i]) {
        var i :| 0 <= i < |cs| && x in WidgetOrder(cs[i]);
        if i < |cs| - 1 {
          assert x in WidgetOrder(front[i]);
        }
      }
    }
  }

  datatype WidgetIter = WidgetIter(stack: seq<Widget>)

  /** `iter()`: a stack holding just the widget. */
  function Iter(w: Widget): WidgetIter
  {
    WidgetIter([w])
  }

  /** What an iterator has left to yield, top of the stack first. */
  function Pending(it: WidgetIter): seq<Widget>
  {
    SiblingsFromLast(it.stack)
  }

  /** `next()`: `None` on an empty stack; otherwise the top widget, with its
      children pushed in declared order (so the last child is on top). */
  function Next(it: WidgetIter): (r: (WidgetIter, Option<Widget>))
    ensures it.stack == [] <==> r.1 == None
    ensures it.stack != [] ==> Pending(it) == [r.1.value] + Pending(r.0)
  {
    if |it.stack| == 0 then (it, None)
    else
      var top := it.stack[|it.stack| - 1];
      var rest := it.stack[..|it.stack| - 1];
      PopPending(it.stack);
      SiblingsAppend(rest, top.children);
      (WidgetIter(rest + top.children), Some(top))
  }

  /** The walk of a non-empty stack starts with the whole order of its
      top widget. */
  lemma PopPending(stack: seq<Widget>)
    requires |stack| > 0
    ensures SiblingsFromLast(stack) ==
              [stack[|stack| - 1]] + (SiblingsFromLast(stack[|stack| - 1].children)
                                      + SiblingsFromLast(stack[..|stack| - 1]))
  {
  }

  /** The first widget of `ws` whose id is `id`, if any. */
  function FindId(ws: seq<Widget>, id: string): (r: Option<Widget>)
    ensures r.None? <==> forall k :: 0 <= k < |ws| ==> ws[k].id != id
    ensures r.Some? ==> FirstMatch(ws, id, r.value)
    decreases |ws|
  {
    if |ws| == 0 then None
    else if ws[0].id == id then Some(ws[0])
    else
      var r := FindId(ws[1..], id);
      if r.Some? then
        FirstMatchShift(ws, id, r.value);
        r
      else r
  }

  /** `v` is the first widget of `ws` with id `id`. */
  predicate FirstMatch(ws: seq<Widget>, id: string, v: Widget)
  {
    exists k :: 0 <= k < |ws| && ws[k] == v && v.id == id && forall j :: 0 <= j < k ==> ws[j].id != id
  }

  /** A first match in the tail is the first match of the whole when the
      head does not match. */
  lemma FirstMatchShift(ws: seq<Widget>, id: string, v: Widget)
    requires |ws| > 0 && ws[0].id != id && FirstMatch(ws[1..], id, v)
    ensures FirstMatch(ws, id, v)
  {
    var k :| 0 <= k < |ws[1..]| && ws[1..][k] == v && v.id == id &&
             forall j :: 0 <= j < k ==> ws[1..][j].id != id;
    forall j | 0 <= j < k + 1
      ensures ws[j].id != id
    {
      if j > 0 {
        assert ws[j] == ws[1..][j - 1];
      }
    }
    assert ws[k + 1] == v;
  }

  /** `get(id)`: walks `iter()` and returns the first widget whose id
      matches, or `None` when the walk ends without one. */
  method Get(w: Widget, id: string) returns (r: Option<Widget>)
    ensures r == FindId(WidgetOrder(w), id)
    ensures r.Some? ==> r.value.id == id && r.value in WidgetOrder(w)
    ensures r.None? <==> forall x :: x in WidgetOrder(w) ==> x.id != id
  {
    var it := Iter(w);
    PopPending(it.stack);
    assert it.stack[..0] == [];
    assert Pending(it) == WidgetOrder(w);
    while it.stack != []
      invariant FindId(Pending(it), id) == FindId(WidgetOrder(w), id)
      decreases |Pending(it)|
    {
      var step := Next(it);
      var x := step.1.value;
      assert Pending(it) == [x] + Pending(step.0);
      assert ([x] + Pending(step.0))[1..] == Pending(step.0);
      if x.id == id {
        return Some(x);
      }
      it := step.0;
    }
    return None;
  }

  /** The number of widgets in a tree. */
  function WidgetCount(w: Widget): nat
    decreases w
  {
    1 + WidgetCountAll(w.children)
  }

  function WidgetCountAll(cs: seq<Widget>): nat
    decreases cs
  {
    if |cs| == 0 then 0 else WidgetCountAll(cs[..|cs| - 1]) + WidgetCount(cs[|cs| - 1])
  }

  /** The walk has one entry per widget of the tree. */
  lemma {:induction false} WalkLength(w: Widget)
    ensures |WidgetOrder(w)| == WidgetCount(w)
    decreases w, 1
  {
    WalkLengthAll(w.children);
  }

  lemma {:induction false} WalkLengthAll(cs: seq<Widget>)
    ensures |SiblingsFromLast(cs)| == WidgetCountAll(cs)
    decreases cs, 0
  {
    if |cs| > 0 {
      WalkLength(cs[|cs| - 1]);
      WalkLengthAll(cs[..|cs| - 1]);
    }
  }

  /** Drains `iter()`: the loop ends, having yielded the walk, one entry
      per widget. */
  method Collect(w: Widget) returns (out: seq<Widget>)
    ensures out == WidgetOrder(w) && |out| == WidgetCount(w)
  {
    var it := Iter(w);
    PopPending(it.stack);
    assert it.stack[..0] == [];
    out := [];
    while it.stack != []
      invariant out + Pending(it) == WidgetOrder(w)
      decreases |Pending(it)|
    {
      var step := Next(it);
      out := out + [step.1.value];
      it := step.0;
    }
    WalkLength(w);
  }

  /** `update()`: ticks the widget, then each child `children_mut()` hands
      out; nothing deeper is ticked and nothing else changes. */
  function Update(w: Widget): (r: Widget)
    ensures r.id == w.id && r.ticks == w.ticks + 1 && r.clicks == w.clicks
    ensures r.sharesChildrenMut == w.sharesChildrenMut
    ensures |r.children| == |w.children|
    ensures forall i :: 0 <= i < |w.children| ==>
              r.children[i] == (if w.sharesChildrenMut then w.children[i].(ticks := w.children[i].ticks + 1)
                                else w.children[i])
  {
    w.(ticks := w.ticks + 1, children := if w.sharesChildrenMut then TickAll(w.children) else w.children)
  }

  function TickAll(cs: seq<Widget>): (rs: seq<Widget>)
    ensures |rs| == |cs|
    ensures forall i :: 0 <= i < |cs| ==> rs[i] == cs[i].(ticks := cs[i].ticks + 1)
    decreases |cs|
  {
    if |cs| == 0 then [] else [cs[0].(ticks := cs[0].ticks + 1)] + TickAll(cs[1..])
  }

  /** All ticks recorded anywhere in a tree. */
  function TotalTicks(w: Widget): nat
    decreases w
  {
    w.ticks + TicksAll(w.children)
  }

  function TicksAll(cs: seq<Widget>): nat
    decreases cs
  {
    if |cs| == 0 then 0 else TotalTicks(cs[0]) + TicksAll(cs[1..])
  }

  lemma {:induction false} TickAllAddsOneEach(cs: seq<Widget>)
    ensures TicksAll(TickAll(cs)) == TicksAll(cs) + |cs|
    decreases |cs|
  {
    if |cs| > 0 {
      TickAllAddsOneEach(cs[1..]);
      assert TickAll(cs)[1..] == TickAll(cs[1..]);
    }
  }

  /** One `update` records exactly one tick for the widget and one for each
      child `children_mut()` hands out. */
  lemma UpdateTicksOnePerLevel(w: Widget)
    ensures TotalTicks(Update(w)) == TotalTicks(w) + 1 + (if w.sharesChildrenMut then |w.children| else 0)
  {
    TickAllAddsOneEach(w.children);
  }

  /** With the default `children_mut()`, `update` ticks the widget alone:
      its children are not ticked, though the walk still visits them. */
  lemma UpdateDefaultTicksItself(w: Widget)
    requires !w.sharesChildrenMut
    ensures Update(w) == w.(ticks := w.ticks + 1)
    ensures TotalTicks(Update(w)) == TotalTicks(w) + 1
    ensures WidgetOrder(Update(w))[1..] == WidgetOrder(w)[1..]
  {
  }

  /** `update` reaches no grandchild. */
  lemma UpdateSkipsGrandchildren(w: Widget, i: nat, j: nat)
    requires i < |w.children| && j < |w.children[i].children|
    ensures Update(w).children[i].children[j] == w.children[i].children[j]
  {
  }

  datatype ElementState = Pressed | Released

  datatype MouseButton = Left | Right | Middle | Back | Forward | OtherButton(code: nat)

  /** `dispatch_click`: the widget is clicked exactly when the left button
      is pressed; nothing but the click count can change. */
  function DispatchClick(w: Widget, state: ElementState, button: MouseButton): (r: Widget)
    ensures r == w.(clicks := r.clicks)
    ensures r.clicks == w.clicks || r.clicks == w.clicks + 1
    ensures r.clicks > w.clicks <==> button == Left && state == Pressed
  {
    match button
    case Left => (match state
                  case Pressed => w.(clicks := w.clicks + 1)
                  case _ => w)
    case _ => w
  }

  /** The widget walk and the layout walk differ: after a widget with
      children, `WidgetIter` yields its LAST child. */
  lemma SecondIsLastChild(w: Widget)
    requires |w.children| > 0
    ensures |WidgetOrder(w)| > 1 && WidgetOrder(w)[1] == w.children[|w.children| - 1]
  {
  }
}
