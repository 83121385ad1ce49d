/**
  `LayoutIter`: a stack of nodes whose top is the last element. `next` pops
  the top, pushes its children in reverse, and yields the popped node, so
  the walk is a pre-order with siblings in declared order.
 */
module Traversal {
  import opened Seqs
  import opened Nodes

  /** The pre-order of a tree: the node, then each child's subtree in
      declared order. */
  function PreOrder(n: Layout): (r: seq<Layout>)
    ensures |r| == Count(n) && r[0] == n
    decreases n
  {
    if n.Empty? then [n] else [n] + PreOrderAll(n.children)
  }

  /** The pre-orders of a forest, one after another. */
  function PreOrderAll(cs: seq<Layout>): (r: seq<Layout>)
    ensures |r| == CountAll(cs)
    decreases cs
  {
    if |cs| == 0 then [] else PreOrder(cs[0]) + PreOrderAll(cs[1..])
  }

  lemma {:induction false} PreOrderAllAppend(a: seq<Layout>, b: seq<Layout>)
    ensures PreOrderAll(a + b) == PreOrderAll(a) + PreOrderAll(b)
    decreases |a|
  {
    if |a| == 0 {
      assert a + b == b;
    } else {
      assert (a + b)[0] == a[0];
      assert (a + b)[1..] == a[1..] + b;
      PreOrderAllAppend(a[1..], b);
    }
  }

  datatype LayoutIter = LayoutIter(stack: seq<Layout>)

  /** `iter()`: a stack holding just the node. */
  function Iter(n: Layout): LayoutIter
  {
    LayoutIter([n])
  }

  /** What an iterator has left to yield: the pre-orders of its stack's
      nodes, top first. */
  function Pending(it: LayoutIter): seq<Layout>
  {
    PreOrderAll(Reverse(it.stack))
  }

  /** `next()`: `None` on an empty stack; otherwise the top node, with its
      children pushed so that the first child is on top. */
  function Next(it: LayoutIter): (r: (LayoutIter, Option<Layout>))
    ensures it.stack == [] <==> r.1 == None
    ensures it.stack != [] ==> Pending(it) == [r.1.value] + Pending(r.0)
  {
    if |it.stack| == 0 then (it, None)
    else
      var top := it.stack[|it.stack| - 1];
      var rest := it.stack[..|it.stack| - 1];
      var next := LayoutIter(rest + Reverse(Children(top)));
      assert it.stack == rest + [top];
      NextPending(rest, top);
      (next, Some(top))
  }

  /** Popping `top` and pushing its children reversed leaves exactly the
      rest of `top`'s pre-order ahead of what was below it. */
  lemma NextPending(rest: seq<Layout>, top: Layout)
    ensures PreOrderAll(Reverse(rest + [top])) ==
              [top] + PreOrderAll(Reverse(rest + Reverse(Children(top))))
  {
    var cs := Children(top);
    calc {
      PreOrderAll(Reverse(rest + [top]));
      { ReverseAppend(rest, [top]); }
      PreOrderAll([top] + Reverse(rest));
      { assert ([top] + Reverse(rest))[1..] == Reverse(rest); }
      PreOrder(top) + PreOrderAll(Reverse(rest));
      [top] + PreOrderAll(cs) + PreOrderAll(Reverse(rest));
      { PreOrderAllAppend(cs, Reverse(rest)); }
      [top] + PreOrderAll(cs + Reverse(rest));
      { ReverseReverse(cs); ReverseAppend(rest, Reverse(cs)); }
      [top] + PreOrderAll(Reverse(rest + Reverse(cs)));
    }
  }

  /** Drains `iter()` of `n`, collecting what `next` yields. The loop ends
      because every step yields one node of a finite walk, and what it
      yields is the pre-order. */
  method Collect(n: Layout) returns (out: seq<Layout>)
    ensures out == PreOrder(n)
    ensures |out| == Count(n) && out[0] == n
  {
    var it := Iter(n);
    out := [];
    assert Pending(it) == PreOrder(n);
    while it.stack != []
      invariant out + Pending(it) == PreOrder(n)
      decreases |Pending(it)|
    {
      var step := Next(it);
      out := out + [step.1.value];
      it := step.0;
    }
  }

  /** The walk of `n` holds exactly `n` and whatever the walks of its
      children hold: it reaches every node of the tree and nothing else. */
  lemma InPreOrder(n: Layout, x: Layout)
    ensures x in PreOrder(n) <==>
              x == n || exists i :: 0 <= i < |Children(n)| && x in PreOrder(Children(n)[i])
  {
    InPreOrderAll(Children(n), x);
  }

  lemma {:induction false} InPreOrderAll(cs: seq<Layout>, x: Layout)
    ensures x in PreOrderAll(cs) <==> exists i :: 0 <= i < |cs| && x in PreOrder(cs[i])
    decreases |cs|
  {
    if |cs| > 0 {
      InPreOrderAll(cs[1..], x);
      if x in PreOrderAll(cs[1..]) {
        var i :| 0 <= i < |cs[1..]| && x in PreOrder(cs[1..][i]);
        assert x in PreOrder(cs[i + 1]);
      }
      if exists i :: 0 <= i < |cs| && x in PreOrder(cs[i]) {
        var i :| 0 <= i < |cs| && x in PreOrder(cs[i]);
        if i > 0 {
          assert x in PreOrder(cs[1..][i - 1]);
        }
      }
    }
  }

  /** An `EmptyLayout`'s iterator yields the node itself and nothing else. */
  lemma EmptyIterYieldsItself(n: Layout)
    requires n.Empty?
    ensures Next(Iter(n)) == (LayoutIter([]), Some(n))
    ensures Pending(Iter(n)) == [n]
  {
  }

  /** After the root come the root's children's subtrees in declared order:
      the second node yielded is the first child. */
  lemma SecondIsFirstChild(n: Layout)
    requires |Children(n)| > 0
    ensures |PreOrder(n)| > 1 && PreOrder(n)[1] == Children(n)[0]
  {
  }
}
