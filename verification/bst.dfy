/**
  `IsBST`: check that a binary tree of 32-bit integers is a binary search tree, every
  value strictly above all values in its left subtree and strictly below all values in
  its right subtree. Both solvers pass each node an inclusive range `[minValue, maxValue]`
  its value must lie in, narrowing it to `value - 1` on the left and `value + 1` on the
  right; the recursive one by recursion, the iterative one with an explicit stack.

  C# evaluates `value - 1` and `value + 1` unchecked, so they wrap at `int.MinValue` and
  `int.MaxValue`. `Arithmetic` selects between that behaviour and exact arithmetic, so
  one definition serves both the code as written and its corrected form.
*/
module BinarySearchTree {
  import opened Unchecked

  newtype Int32 = x: int | -0x8000_0000 <= x <= 0x7fff_ffff

  /** A tree of `Node { Value; Left; Right }`, with `Nil` for null. */
  datatype Tree = Nil | Node(value: Int32, left: Tree, right: Tree)

  /** How the bounds passed to a child are computed. */
  datatype Arithmetic = Unchecked32 | Exact

  /** `value - 1`, the upper bound handed to the left child. */
  function Below(v: Int32, arith: Arithmetic): int {
    if arith.Exact? then v as int - 1 else Wrap(v as int - 1)
  }

  /** `value + 1`, the lower bound handed to the right child. */
  function Above(v: Int32, arith: Arithmetic): int {
    if arith.Exact? then v as int + 1 else Wrap(v as int + 1)
  }

  /** `IsBST(node, minValue, maxValue)`: every value in range, the children checked in narrowed ranges. */
  function Within(t: Tree, lo: int, hi: int, arith: Arithmetic): bool {
    match t
    case Nil => true
    case Node(v, l, r) =>
      !(v as int < lo || v as int > hi)
      && Within(l, lo, Below(v, arith), arith) && Within(r, Above(v, arith), hi, arith)
  }

  /** `IsBST(root)`: a null tree passes, any other is checked in the full 32-bit range. */
  function IsBST(root: Tree, arith: Arithmetic): bool {
    root == Nil || Within(root, MinValue, MaxValue, arith)
  }

  /** The values stored in the tree. */
  function Elems(t: Tree): set<int> {
    match t
    case Nil => {}
    case Node(v, l, r) => {v as int} + Elems(l) + Elems(r)
  }

  /** The binary search tree property, stated directly: strict ordering around every node. */
  predicate SearchTree(t: Tree) {
    match t
    case Nil => true
    case Node(v, l, r) =>
      && SearchTree(l) && SearchTree(r)
      && (forall x :: x in Elems(l) ==> x < v as int)
      && (forall x :: x in Elems(r) ==> x > v as int)
  }

  predicate InRange(t: Tree, lo: int, hi: int) {
    forall x :: x in Elems(t) ==> lo <= x <= hi
  }

  /** With exact arithmetic, a tree passes the range check exactly when it is a search tree inside the range. */
  lemma {:induction false} ExactWithin(t: Tree, lo: int, hi: int)
    ensures Within(t, lo, hi, Exact) <==> SearchTree(t) && InRange(t, lo, hi)
  {
    match t
    case Nil =>
    case Node(v, l, r) =>
      ExactWithin(l, lo, v as int - 1);
      ExactWithin(r, v as int + 1, hi);
      if SearchTree(t) && InRange(t, lo, hi) {
        assert v as int in Elems(t);
        assert InRange(l, lo, v as int - 1) by {
          forall x | x in Elems(l) ensures lo <= x <= v as int - 1 {
            assert x in Elems(t);
          }
        }
        assert InRange(r, v as int + 1, hi) by {
          forall x | x in Elems(r) ensures v as int + 1 <= x <= hi {
            assert x in Elems(t);
          }
        }
      }
      if Within(t, lo, hi, Exact) {
        assert forall x :: x in Elems(l) ==> x < v as int;
        assert forall x :: x in Elems(r) ==> x > v as int;
        forall x | x in Elems(t) ensures lo <= x <= hi {
          if x in Elems(l) {
          } else if x in Elems(r) {
          }
        }
      }
  }

  /** Every stored value is a 32-bit integer. */
  lemma {:induction false} ElemsInt32(t: Tree)
    ensures InRange(t, MinValue, MaxValue)
  {
    match t
    case Nil =>
    case Node(v, l, r) =>
      ElemsInt32(l);
      ElemsInt32(r);
  }

  /** Corrected: with exact arithmetic, `IsBST` accepts exactly the binary search trees. */
  lemma ExactIsBST(t: Tree)
    ensures IsBST(t, Exact) <==> SearchTree(t)
  {
    ExactWithin(t, MinValue, MaxValue);
    ElemsInt32(t);
  }

  /** No stored value is `int.MinValue` or `int.MaxValue`. */
  predicate NoExtremes(t: Tree) {
    InRange(t, MinValue + 1, MaxValue - 1)
  }

  /** Away from the two extreme values the wrapped bounds equal the exact ones. */
  lemma {:induction false} AgreeWithoutExtremes(t: Tree, lo: int, hi: int)
    requires NoExtremes(t)
    ensures Within(t, lo, hi, Unchecked32) == Within(t, lo, hi, Exact)
  {
    match t
    case Nil =>
    case Node(v, l, r) =>
      assert v as int in Elems(t);
      assert NoExtremes(l) && NoExtremes(r) by {
        forall x | x in Elems(l) + Elems(r) ensures MinValue + 1 <= x <= MaxValue - 1 {
          assert x in Elems(t);
        }
      }
      AgreeWithoutExtremes(l, lo, v as int - 1);
      AgreeWithoutExtremes(r, v as int + 1, hi);
  }

  /** As written, the code is right on every tree that avoids the two extreme values. */
  lemma AsWrittenWithoutExtremes(t: Tree)
    requires NoExtremes(t)
    ensures IsBST(t, Unchecked32) <==> SearchTree(t)
  {
    AgreeWithoutExtremes(t, MinValue, MaxValue);
    ExactIsBST(t);
  }

  /**
    As written, a root holding `int.MinValue` hands its left child the bound
    `int.MinValue - 1`, which wraps to `int.MaxValue`: a left child 5 is accepted.
  */
  lemma AsWrittenAcceptsLeftAboveMin()
    ensures var t := Node(MinValue as Int32, Node(5, Nil, Nil), Nil);
      IsBST(t, Unchecked32) && !SearchTree(t)
  {
    var t := Node(MinValue as Int32, Node(5, Nil, Nil), Nil);
    assert Below(MinValue as Int32, Unchecked32) == MaxValue;
    assert 5 in Elems(t.left);
  }

  /** A pending check: `node` must be a search tree with values in `[min, max]`. */
  datatype NodeCondition = NodeCondition(node: Tree, min: int, max: int)

  function Size(t: Tree): nat {
    match t
    case Nil => 0
    case Node(_, l, r) => 1 + Size(l) + Size(r)
  }

  /** The number of nodes the pending checks still cover. */
  function Pending(stack: seq<NodeCondition>): nat {
    if |stack| == 0 then 0 else Pending(stack[..|stack| - 1]) + Size(stack[|stack| - 1].node)
  }

  /** Every pending check holds. */
  predicate AllWithin(stack: seq<NodeCondition>, arith: Arithmetic) {
    forall i :: 0 <= i < |stack| ==> Within(stack[i].node, stack[i].min, stack[i].max, arith)
  }

  /** Pushing a check adds its node count to the work and its condition to the conjunction. */
  lemma Pushed(stack: seq<NodeCondition>, c: NodeCondition, arith: Arithmetic)
    ensures Pending(stack + [c]) == Pending(stack) + Size(c.node)
    ensures AllWithin(stack + [c], arith) <==> AllWithin(stack, arith) && Within(c.node, c.min, c.max, arith)
  {
    assert (stack + [c])[..|stack|] == stack;
    if AllWithin(stack, arith) && Within(c.node, c.min, c.max, arith) {
      forall i | 0 <= i < |stack| + 1
        ensures Within((stack + [c])[i].node, (stack + [c])[i].min, (stack + [c])[i].max, arith)
      {
        if i < |stack| { assert (stack + [c])[i] == stack[i]; }
      }
    }
    if AllWithin(stack + [c], arith) {
      forall i | 0 <= i < |stack| ensures Within(stack[i].node, stack[i].min, stack[i].max, arith) {
        assert (stack + [c])[i] == stack[i];
      }
      assert (stack + [c])[|stack|] == c;
    }
  }

  /** Only checks of actual nodes are pushed. */
  predicate Nodes(stack: seq<NodeCondition>) {
    forall i :: 0 <= i < |stack| ==> stack[i].node.Node?
  }

  /** The checks `IsBST` pushes for a node's children: the left one first, each only when the child exists. */
  function Children(item: NodeCondition, arith: Arithmetic): (cs: seq<NodeCondition>)
    requires item.node.Node?
    ensures forall i :: 0 <= i < |cs| ==> cs[i].node.Node?
  {
    var n := item.node;
    (if n.left != Nil then [NodeCondition(n.left, item.min, Below(n.value, arith))] else [])
    + (if n.right != Nil then [NodeCondition(n.right, Above(n.value, arith), item.max)] else [])
  }

  /** Replacing the top check by its children's checks pushes only actual nodes. */
  lemma ChildNodes(rest: seq<NodeCondition>, item: NodeCondition, arith: Arithmetic)
    requires Nodes(rest + [item])
    ensures item.node.Node? && Nodes(rest + Children(item, arith))
  {
    assert (rest + [item])[|rest|] == item;
    var s := rest + Children(item, arith);
    forall i | 0 <= i < |s| ensures s[i].node.Node? {
      if i < |rest| {
        assert s[i] == rest[i] == (rest + [item])[i];
      } else {
        assert s[i] == Children(item, arith)[i - |rest|];
      }
    }
  }

  /**
    Replacing the check on the top of the stack, whose node value is in range, by the
    checks of its children keeps the conjunction and shrinks the work.
  */
  lemma {:induction false} Replaced(rest: seq<NodeCondition>, item: NodeCondition, arith: Arithmetic)
    requires item.node.Node? && item.min <= item.node.value as int <= item.max
    ensures Pending(rest + Children(item, arith)) < Pending(rest + [item])
    ensures AllWithin(rest + Children(item, arith), arith) <==> AllWithin(rest + [item], arith)
  {
    var n := item.node;
    var left := NodeCondition(n.left, item.min, Below(n.value, arith));
    var right := NodeCondition(n.right, Above(n.value, arith), item.max);
    Pushed(rest, item, arith);
    assert Size(item.node) == 1 + Size(n.left) + Size(n.right);
    assert Within(item.node, item.min, item.max, arith)
      == (Within(n.left, left.min, left.max, arith) && Within(n.right, right.min, right.max, arith));
    var s := rest + (if n.left != Nil then [left] else []);
    assert Pending(s) == Pending(rest) + Size(n.left)
      && (AllWithin(s, arith) <==> AllWithin(rest, arith) && Within(n.left, left.min, left.max, arith)) by {
      if n.left != Nil {
        Pushed(rest, left, arith);
      } else {
        assert s == rest;
      }
    }
    if n.right != Nil {
      Pushed(s, right, arith);
      assert rest + Children(item, arith) == s + [right];
    } else {
      assert rest + Children(item, arith) == s;
    }
  }

  /**
    `IterativeSolver.IsBST`: pop a pending check, fail if the node's value is out of its
    range, and push checks for the children that exist. The answer is the recursive one,
    under either arithmetic.
  */
  method IterativeIsBST(root: Tree, arith: Arithmetic) returns (r: bool)
    ensures r == IsBST(root, arith)
  {
    if root == Nil {
      return true;
    }
    var stack := [NodeCondition(root, MinValue, MaxValue)];
    Pushed([], NodeCondition(root, MinValue, MaxValue), arith);
    assert [] + [NodeCondition(root, MinValue, MaxValue)] == stack;
    while |stack| > 0
      invariant Nodes(stack)
      invariant IsBST(root, arith) <==> AllWithin(stack, arith)
      decreases Pending(stack)
    {
      var item := stack[|stack| - 1];
      var rest := stack[..|stack| - 1];
      assert stack == rest + [item];
      var node := item.node;
      if node.value as int < item.min || node.value as int > item.max {
        Pushed(rest, item, arith);
        return false;
      }
      ChildNodes(rest, item, arith);
      Replaced(rest, item, arith);
      stack := rest + Children(item, arith);
    }
    return true;
  }
}
