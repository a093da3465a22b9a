/**
  `Reverse`: turn a singly linked list around in place by re-pointing each node's `Next`
  at the node that preceded it. No node is allocated or freed, and no value moves.
*/
module ReverseList {
  import opened HeapLists

  /**
    The reversed list visits the same nodes back to front and so carries the values back
    to front; only `Next` fields of the list's own nodes change.
  */
  method Reverse<T>(h: Heap<T>, list: Ptr, ghost addrs: seq<nat>) returns (h': Heap<T>, result: Ptr)
    requires ListOf(h, list, addrs)
    ensures list.Null? ==> result.Null? && h' == h
    ensures ListOf(h', result, Reversed(addrs))
    ensures Values(h', result, Reversed(addrs)) == Reversed(Values(h, list, addrs))
    ensures h'.Keys == h.Keys
    ensures forall a :: a in h && a !in addrs ==> h'[a] == h[a]
  {
    ListNodes(h, list, addrs);
    h' := h;
    result := Null;
    var node := list;
    ghost var i := 0;
    assert addrs[0..] == addrs;
    while node != Null
      invariant 0 <= i <= |addrs|
      invariant ListOf(h', node, addrs[i..])
      invariant ListOf(h', result, Reversed(addrs[..i]))
      invariant Kept(h, h', addrs)
      decreases |addrs| - i
    {
      var temp := h'[node.a].next;
      ghost var h0 := h';
      h' := h'[node.a := h'[node.a].(next := result)];
      TurnOne(h, h0, h', addrs, i, result);
      result := node;
      node := temp;
      i := i + 1;
    }
    assert addrs[..i] == addrs;
    ReversedValues(h, h', list, result, addrs);
  }

  /** No node has been added or dropped, no value has changed, and nodes off the list are untouched. */
  ghost predicate Kept<T>(h: Heap<T>, h': Heap<T>, addrs: seq<nat>) {
    && h'.Keys == h.Keys
    && (forall a {:trigger h'[a]} :: a in h' ==> a in h && h'[a].value == h[a].value)
    && (forall a {:trigger h'[a]} :: a in h' && a !in addrs ==> h'[a] == h[a])
  }

  /** Re-pointing node `i` at the reversed prefix moves it from the rest onto that prefix. */
  lemma {:induction false} TurnOne<T>(h: Heap<T>, h0: Heap<T>, h1: Heap<T>, addrs: seq<nat>, i: int, result: Ptr)
    requires Distinct(addrs) && 0 <= i < |addrs|
    requires ListOf(h0, PtrTo(addrs, i), addrs[i..]) && ListOf(h0, result, Reversed(addrs[..i]))
    requires Kept(h, h0, addrs)
    requires h1 == h0[addrs[i] := h0[addrs[i]].(next := result)]
    ensures ListOf(h1, h0[addrs[i]].next, addrs[i + 1..])
    ensures ListOf(h1, PtrTo(addrs, i), Reversed(addrs[..i + 1]))
    ensures Kept(h, h1, addrs)
  {
    var n := addrs[i];
    TurnSeqs(addrs, i);
    forall a | a in addrs[i + 1..] && a in h0 ensures a in h1 && h1[a].next == h0[a].next {
    }
    ListFrame(h0, h1, h0[n].next, addrs[i + 1..]);
    forall a | a in Reversed(addrs[..i]) && a in h0 ensures a in h1 && h1[a].next == h0[a].next {
    }
    ListFrame(h0, h1, result, Reversed(addrs[..i]));
    assert Kept(h, h1, addrs) by {
      assert h1.Keys == h.Keys;
      forall a | a in h1 ensures a in h && h1[a].value == h[a].value {
        if a == n { assert h1[a].value == h0[a].value; }
      }
      forall a | a in h1 && a !in addrs ensures h1[a] == h[a] {
        assert a != n;
      }
    }
  }

  /** How the remaining and the reversed part of the addresses change when node `i` turns. */
  lemma TurnSeqs(addrs: seq<nat>, i: int)
    requires Distinct(addrs) && 0 <= i < |addrs|
    ensures addrs[i..][1..] == addrs[i + 1..] && addrs[i] !in addrs[i + 1..]
    ensures Reversed(addrs[..i + 1]) == [addrs[i]] + Reversed(addrs[..i])
    ensures addrs[i] !in Reversed(addrs[..i])
  {
    assert addrs[i..][1..] == addrs[i + 1..];
    forall j | 0 <= j < i ensures Reversed(addrs[..i])[j] != addrs[i] {
      assert Reversed(addrs[..i])[j] == addrs[i - 1 - j];
    }
    assert Reversed(addrs[..i + 1]) == [addrs[i]] + Reversed(addrs[..i]);
  }

  /** The reversed nodes carry the original values back to front. */
  lemma {:induction false} ReversedValues<T>(h: Heap<T>, h': Heap<T>, list: Ptr, result: Ptr, addrs: seq<nat>)
    requires ListOf(h, list, addrs) && ListOf(h', result, Reversed(addrs))
    requires Kept(h, h', addrs)
    ensures Values(h', result, Reversed(addrs)) == Reversed(Values(h, list, addrs))
  {
    var r, vs, ws := Reversed(addrs), Values(h, list, addrs), Values(h', result, Reversed(addrs));
    forall j | 0 <= j < |r| ensures ws[j] == Reversed(vs)[j] {
      var k := |addrs| - 1 - j;
      assert r[j] == addrs[k] && ws[j] == h'[addrs[k]].value;
      assert Reversed(vs)[j] == vs[k] == h[addrs[k]].value;
    }
  }
}
