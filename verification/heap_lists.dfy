/**
  Singly linked lists of `Node { Value; Next }` objects, with the object heap made
  explicit: a finite map from addresses to nodes. A list is described by the addresses
  its `Next` chain visits, so what a routine does to the nodes and to the values they
  carry can both be stated.
*/
module HeapLists {

  /** A node reference: null or the address of a node. */
  datatype Ptr = Null | Addr(a: nat)

  datatype Node<T> = Node(value: T, next: Ptr)

  type Heap<T> = map<nat, Node<T>>

  /** The reference to `addrs[i]`, or null when `i` is outside the list. */
  function PtrTo(addrs: seq<nat>, i: int): (p: Ptr)
    ensures p.Addr? <==> 0 <= i < |addrs|
    ensures p.Addr? ==> p.a == addrs[i]
  {
    if 0 <= i < |addrs| then Addr(addrs[i]) else Null
  }

  predicate Distinct(addrs: seq<nat>) {
    forall i, j :: 0 <= i < j < |addrs| ==> addrs[i] != addrs[j]
  }

  /** Following `Next` from `p` visits exactly the nodes at `addrs`, in order, and then null. */
  predicate ListOf<T>(h: Heap<T>, p: Ptr, addrs: seq<nat>)
    decreases |addrs|
  {
    if |addrs| == 0 then p == Null
    else p == Addr(addrs[0]) && addrs[0] in h && addrs[0] !in addrs[1..] && ListOf(h, h[addrs[0]].next, addrs[1..])
  }

  /** Every node of a list is in the heap, and none is visited twice. */
  lemma {:induction false} ListNodes<T>(h: Heap<T>, p: Ptr, addrs: seq<nat>)
    requires ListOf(h, p, addrs)
    ensures forall k :: 0 <= k < |addrs| ==> addrs[k] in h
    ensures Distinct(addrs)
    decreases |addrs|
  {
    if |addrs| > 0 {
      var rest := addrs[1..];
      ListNodes(h, h[addrs[0]].next, rest);
      forall k | 0 < k < |addrs| ensures addrs[k] == rest[k - 1] && addrs[k] != addrs[0] {
        assert rest[k - 1] in rest;
      }
    }
  }

  /** The list starts at its first address, or is null when empty. */
  lemma ListHead<T>(h: Heap<T>, p: Ptr, addrs: seq<nat>)
    requires ListOf(h, p, addrs)
    ensures p == PtrTo(addrs, 0)
  {
  }

  /** The part of a list from position `i` on is itself the list starting at node `i`. */
  lemma {:induction false} ListFrom<T>(h: Heap<T>, p: Ptr, addrs: seq<nat>, i: int)
    requires ListOf(h, p, addrs) && 0 <= i <= |addrs|
    ensures ListOf(h, PtrTo(addrs, i), addrs[i..])
    decreases i
  {
    if i == 0 {
      assert addrs[0..] == addrs;
    } else {
      ListFrom(h, h[addrs[0]].next, addrs[1..], i - 1);
      assert addrs[1..][i - 1..] == addrs[i..];
    }
  }

  /** Node `i` of a list links to node `i + 1`, or to null after the last node. */
  lemma {:induction false} ListLink<T>(h: Heap<T>, p: Ptr, addrs: seq<nat>, i: int)
    requires ListOf(h, p, addrs) && 0 <= i < |addrs|
    ensures addrs[i] in h && h[addrs[i]].next == PtrTo(addrs, i + 1)
  {
    ListFrom(h, p, addrs, i);
    var rest := addrs[i..];
    assert rest[0] == addrs[i] && rest[1..] == addrs[i + 1..];
    ListHead(h, h[addrs[i]].next, addrs[i + 1..]);
  }

  /**
    A list survives any heap change that keeps its nodes and their `Next` fields: what
    happens to other nodes does not matter.
  */
  lemma {:induction false} ListFrame<T>(h: Heap<T>, h': Heap<T>, p: Ptr, addrs: seq<nat>)
    requires ListOf(h, p, addrs)
    requires forall a :: a in addrs && a in h ==> a in h' && h'[a].next == h[a].next
    ensures ListOf(h', p, addrs)
    decreases |addrs|
  {
    if |addrs| > 0 {
      assert addrs[0] in addrs;
      forall a | a in addrs[1..] && a in h ensures a in h' && h'[a].next == h[a].next {
        assert a in addrs;
      }
      ListFrame(h, h', h[addrs[0]].next, addrs[1..]);
    }
  }

  /** A reference determines its list: two address sequences that both describe it are equal. */
  lemma {:induction false} ListUnique<T>(h: Heap<T>, p: Ptr, a: seq<nat>, b: seq<nat>)
    requires ListOf(h, p, a) && ListOf(h, p, b)
    ensures a == b
    decreases |a|
  {
    if |a| > 0 && |b| > 0 {
      ListUnique(h, h[a[0]].next, a[1..], b[1..]);
      assert a == [a[0]] + a[1..] && b == [b[0]] + b[1..];
    }
  }

  /** The values the list from `p` carries, front to back. */
  function Values<T>(h: Heap<T>, p: Ptr, addrs: seq<nat>): (vs: seq<T>)
    requires ListOf(h, p, addrs)
    ensures |vs| == |addrs|
    ensures forall k :: 0 <= k < |addrs| ==> addrs[k] in h && vs[k] == h[addrs[k]].value
  {
    ListNodes(h, p, addrs);
    seq(|addrs|, k requires 0 <= k < |addrs| => h[addrs[k]].value)
  }

  /** The sequence read back to front. */
  function Reversed<T>(s: seq<T>): (r: seq<T>)
    ensures |r| == |s|
    ensures forall k :: 0 <= k < |s| ==> r[k] == s[|s| - 1 - k]
  {
    seq(|s|, k requires 0 <= k < |s| => s[|s| - 1 - k])
  }

}
