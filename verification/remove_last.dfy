/**
  `RemoveLast`: unlink from a singly linked list of integers the last node carrying a
  given value. One pass remembers the node before the latest match; the match is then
  bypassed, or, when it is the head, the list starts at the head's successor.
*/
module RemoveLast {
  import opened HeapLists

  /** The position of the last occurrence of `v` in `vs`, or -1 when there is none. */
  function LastIndexOf(vs: seq<int>, v: int): (k: int)
    ensures -1 <= k < |vs|
    ensures 0 <= k ==> vs[k] == v
    ensures forall j :: k < j < |vs| ==> vs[j] != v
    ensures k == -1 <==> v !in vs
  {
    if |vs| == 0 then -1
    else if vs[|vs| - 1] == v then |vs| - 1
    else LastIndexOf(vs[..|vs| - 1], v)
  }

  /** The last occurrence is the only position holding `v` with no `v` after it. */
  lemma LastIndexUnique(vs: seq<int>, v: int, m: int)
    requires -1 <= m < |vs| && (0 <= m ==> vs[m] == v)
    requires forall j :: m < j < |vs| ==> vs[j] != v
    ensures m == LastIndexOf(vs, v)
  {
    var k := LastIndexOf(vs, v);
    assert m <= k;
  }

  /** The sequence without its element at position `k`. */
  function Without<T>(s: seq<T>, k: int): (r: seq<T>)
    requires 0 <= k < |s|
    ensures |r| == |s| - 1
    ensures forall j :: 0 <= j < |r| ==> r[j] == if j < k then s[j] else s[j + 1]
  {
    s[..k] + s[k + 1..]
  }

  /**
    The list afterwards is the old one without the last node carrying `value`, and the
    values are the old ones without their last `value`; with no such node nothing
    changes. Only the `Next` field of the node before the removed one is written.
  */
  method RemoveLast(h: Heap<int>, list: Ptr, value: int, ghost addrs: seq<nat>) returns (h': Heap<int>, result: Ptr)
    requires ListOf(h, list, addrs)
    ensures var j := LastIndexOf(Values(h, list, addrs), value);
      && (j == -1 ==> h' == h && result == list)
      && (0 <= j ==> ListOf(h', result, Without(addrs, j)))
      && (0 <= j ==> Values(h', result, Without(addrs, j)) == Without(Values(h, list, addrs), j))
    ensures h'.Keys == h.Keys
    ensures var j := LastIndexOf(Values(h, list, addrs), value);
      forall a {:trigger h'[a]} :: a in h && (j < 1 || a != addrs[j - 1]) ==> h'[a] == h[a]
  {
    ghost var vs := Values(h, list, addrs);
    if list == Null {
      assert |vs| == 0;
      return h, Null;
    }
    var precedingLast, m := FindPrecedingLast(h, list, value, addrs);
    if precedingLast != Null {
      ListLink(h, list, addrs, m - 1);
      ListLink(h, list, addrs, m);
      var bypassed := h[precedingLast.a].next;
      assert bypassed == Addr(addrs[m]) && h[bypassed.a].next == PtrTo(addrs, m + 1);
      h' := h[precedingLast.a := h[precedingLast.a].(next := h[bypassed.a].next)];
      result := list;
      Bypass(h, h', list, addrs, m);
    } else if h[list.a].value == value {
      assert vs[0] == value && m == 0;
      h' := h;
      result := h[list.a].next;
      HeadRemoved(h, list, addrs);
    } else {
      assert m == -1;
      h' := h;
      result := list;
    }
  }

  /**
    The loop of `RemoveLast`: walk the whole list, remembering the node before the latest
    node that carries `value` (null when that node is the head or there is none).
  */
  method FindPrecedingLast(h: Heap<int>, list: Ptr, value: int, ghost addrs: seq<nat>) returns (precedingLast: Ptr, ghost m: int)
    requires ListOf(h, list, addrs)
    ensures precedingLast == PtrTo(addrs, LastIndexOf(Values(h, list, addrs), value) - 1)
    ensures m == LastIndexOf(Values(h, list, addrs), value)
  {
    ghost var vs := Values(h, list, addrs);
    precedingLast := Null;
    var previous := Null;
    var current := list;
    ghost var i := 0;
    m := -1;
    ListHead(h, list, addrs);
    while current != Null
      invariant 0 <= i <= |addrs|
      invariant current == PtrTo(addrs, i) && previous == PtrTo(addrs, i - 1)
      invariant -1 <= m < i && (0 <= m ==> vs[m] == value)
      invariant forall j :: m < j < i ==> vs[j] != value
      invariant precedingLast == PtrTo(addrs, m - 1)
      decreases |addrs| - i
    {
      ListLink(h, list, addrs, i);
      if h[current.a].value == value {
        precedingLast := previous;
        m := i;
      }
      previous := current;
      current := h[current.a].next;
      i := i + 1;
    }
    LastIndexUnique(vs, value, m);
  }

  /**
    Re-pointing node `m - 1` past node `m` removes node `m` from the list and leaves the
    values of the other nodes in order.
  */
  lemma {:induction false} Bypass(h: Heap<int>, h': Heap<int>, list: Ptr, addrs: seq<nat>, m: int)
    requires ListOf(h, list, addrs) && 1 <= m < |addrs| && addrs[m - 1] in h
    requires h' == h[addrs[m - 1] := h[addrs[m - 1]].(next := PtrTo(addrs, m + 1))]
    ensures ListOf(h', list, Without(addrs, m))
    ensures Values(h', list, Without(addrs, m)) == Without(Values(h, list, addrs), m)
    ensures h'.Keys == h.Keys
    ensures forall a {:trigger h'[a]} :: a in h && a != addrs[m - 1] ==> h'[a] == h[a]
  {
    Spliced(h, h', list, addrs, m);
    assert forall a :: a in h ==> h'[a].value == h[a].value;
    SameValues(h, h', list, list, addrs, m);
  }

  /** Starting at the head's successor drops the head and its value. */
  lemma HeadRemoved(h: Heap<int>, list: Ptr, addrs: seq<nat>)
    requires ListOf(h, list, addrs) && 1 <= |addrs|
    ensures ListOf(h, h[addrs[0]].next, Without(addrs, 0))
    ensures Values(h, h[addrs[0]].next, Without(addrs, 0)) == Without(Values(h, list, addrs), 0)
  {
    assert Without(addrs, 0) == addrs[1..];
    SameValues(h, h, list, h[addrs[0]].next, addrs, 0);
  }

  /** The bypassing heap describes the list without node `m`. */
  lemma {:induction false} Spliced(h: Heap<int>, h': Heap<int>, list: Ptr, addrs: seq<nat>, m: int)
    requires ListOf(h, list, addrs) && 1 <= m < |addrs| && addrs[m - 1] in h
    requires h' == h[addrs[m - 1] := h[addrs[m - 1]].(next := PtrTo(addrs, m + 1))]
    ensures ListOf(h', list, Without(addrs, m))
    decreases m
  {
    ListNodes(h, list, addrs);
    var rest := Without(addrs, m);
    assert rest[0] == addrs[0] && addrs[0] in h';
    assert addrs[0] !in rest[1..] by {
      forall j | 0 <= j < |rest| - 1 ensures rest[1..][j] != addrs[0] {
        assert rest[1..][j] == addrs[if j + 1 < m then j + 1 else j + 2];
      }
    }
    if m == 1 {
      ListFrom(h, list, addrs, 2);
      forall a | a in addrs[2..] && a in h ensures a in h' && h'[a].next == h[a].next {
        var k :| 2 <= k < |addrs| && addrs[k] == a;
      }
      ListFrame(h, h', PtrTo(addrs, 2), addrs[2..]);
      assert rest[1..] == addrs[2..];
    } else {
      var tail := addrs[1..];
      assert tail[m - 2] == addrs[m - 1] && PtrTo(tail, m) == PtrTo(addrs, m + 1);
      Spliced(h, h', h[addrs[0]].next, tail, m - 1);
      assert rest[1..] == Without(tail, m - 1) by {
        forall j | 0 <= j < |rest| - 1 ensures rest[1..][j] == Without(tail, m - 1)[j] {
        }
      }
      assert addrs[0] != addrs[m - 1];
      assert h'[addrs[0]].next == h[addrs[0]].next;
    }
  }

  /**
    Two lists over nodes that carry the same values, the second missing node `m` of the
    first, carry the first's values without position `m`.
  */
  lemma {:induction false} SameValues(h: Heap<int>, h': Heap<int>, p: Ptr, q: Ptr, addrs: seq<nat>, m: int)
    requires ListOf(h, p, addrs) && 0 <= m < |addrs|
    requires ListOf(h', q, Without(addrs, m))
    requires h'.Keys == h.Keys && forall a {:trigger h'[a]} :: a in h' ==> h'[a].value == h[a].value
    ensures Values(h', q, Without(addrs, m)) == Without(Values(h, p, addrs), m)
  {
    var vs, ws, rest := Values(h, p, addrs), Values(h', q, Without(addrs, m)), Without(addrs, m);
    forall j | 0 <= j < |ws| ensures ws[j] == Without(vs, m)[j] {
      var k := if j < m then j else j + 1;
      assert rest[j] == addrs[k] && ws[j] == h'[addrs[k]].value;
      assert Without(vs, m)[j] == vs[k] == h[addrs[k]].value;
    }
  }
}
