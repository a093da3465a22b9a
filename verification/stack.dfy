/**
  `Stack`: a stack over a singly linked list whose `head` node is the top. `Push`
  allocates a node in front of the head; `Pop` returns the head's value and moves the
  head on, throwing `InvalidOperationException` when the stack is empty.
*/
module ListBasedStack {
  import opened Errors
  import opened HeapLists

  /** The stack's fields, with the node heap and the address the next `new Node()` gets. */
  datatype Stack<T> = Stack(heap: Heap<T>, head: Ptr, free: nat)

  /** The stack's nodes, top first, are `addrs`, and no allocated node sits at `free` or above. */
  ghost predicate StackOf<T>(s: Stack<T>, addrs: seq<nat>) {
    ListOf(s.heap, s.head, addrs) && forall a :: a in s.heap ==> a < s.free
  }

  /** The values on the stack, top first. */
  ghost function Contents<T>(s: Stack<T>, addrs: seq<nat>): (vs: seq<T>)
    requires StackOf(s, addrs)
    ensures |vs| == |addrs|
  {
    Values(s.heap, s.head, addrs)
  }

  /** A new stack: no nodes. */
  function Empty<T>(): (s: Stack<T>)
    ensures StackOf(s, []) && Contents(s, []) == []
  {
    Stack(map[], Null, 0)
  }

  /** `IsEmpty`: the head is null exactly when the stack holds no value. */
  function IsEmpty<T>(s: Stack<T>, ghost addrs: seq<nat>): (r: bool)
    requires StackOf(s, addrs)
    ensures r <==> Contents(s, addrs) == []
  {
    s.head == Null
  }

  /**
    `Push`: the new node, at a fresh address, becomes the top and carries `value`; the
    nodes already allocated are untouched.
  */
  function Push<T>(s: Stack<T>, value: T, ghost addrs: seq<nat>): (s': Stack<T>)
    requires StackOf(s, addrs)
    ensures s.free !in s.heap && StackOf(s', [s.free] + addrs)
    ensures Contents(s', [s.free] + addrs) == [value] + Contents(s, addrs)
    ensures forall a :: a in s.heap ==> a in s'.heap && s'.heap[a] == s.heap[a]
  {
    Pushed(s, value, addrs);
    Stack(s.heap[s.free := Node(value, s.head)], Addr(s.free), s.free + 1)
  }

  /** A node at the free address, linked to the old head, heads the old list. */
  lemma {:induction false} Pushed<T>(s: Stack<T>, value: T, addrs: seq<nat>)
    requires StackOf(s, addrs)
    ensures var s' := Stack(s.heap[s.free := Node(value, s.head)], Addr(s.free), s.free + 1);
      && s.free !in s.heap && StackOf(s', [s.free] + addrs)
      && Contents(s', [s.free] + addrs) == [value] + Contents(s, addrs)
  {
    var s' := Stack(s.heap[s.free := Node(value, s.head)], Addr(s.free), s.free + 1);
    var addrs' := [s.free] + addrs;
    ListNodes(s.heap, s.head, addrs);
    assert s.free !in addrs;
    ListFrame(s.heap, s'.heap, s.head, addrs);
    assert addrs'[1..] == addrs;
    assert ListOf(s'.heap, s'.head, addrs');
    var vs, ws := Contents(s, addrs), Contents(s', addrs');
    forall k | 0 <= k < |ws| ensures ws[k] == ([value] + vs)[k] {
      if k > 0 {
        assert addrs'[k] == addrs[k - 1] && ws[k] == s'.heap[addrs[k - 1]].value;
      }
    }
  }

  /**
    `Pop`: an empty stack throws; otherwise the top value comes back
    and the rest of the stack, in order, remains.
  */
  function Pop<T>(s: Stack<T>, ghost addrs: seq<nat>): (r: Result<(T, Stack<T>)>)
    requires StackOf(s, addrs)
    ensures r.Err? <==> addrs == []
    ensures r.Err? ==> r.error == InvalidOperation
    ensures r.Ok? ==> StackOf(r.value.1, addrs[1..])
    ensures r.Ok? ==> [r.value.0] + Contents(r.value.1, addrs[1..]) == Contents(s, addrs)
  {
    if s.head == Null then Err(InvalidOperation)
    else
      var s' := s.(head := s.heap[s.head.a].next);
      ListNodes(s.heap, s.head, addrs);
      assert [s.heap[s.head.a].value] + Contents(s', addrs[1..]) == Contents(s, addrs);
      Ok((s.heap[s.head.a].value, s'))
  }

  /** Last in, first out: popping right after a push gives back the pushed value and the stack before it. */
  lemma {:induction false} PopAfterPush<T>(s: Stack<T>, value: T, addrs: seq<nat>)
    requires StackOf(s, addrs)
    ensures var r := Pop(Push(s, value, addrs), [s.free] + addrs);
      && r.Ok? && r.value.0 == value
      && ([s.free] + addrs)[1..] == addrs
      && Contents(r.value.1, addrs) == Contents(s, addrs)
  {
    var pushed := Push(s, value, addrs);
    assert ([s.free] + addrs)[1..] == addrs;
    var r := Pop(pushed, [s.free] + addrs);
    assert [r.value.0] + Contents(r.value.1, addrs) == [value] + Contents(s, addrs);
    assert Contents(r.value.1, addrs) == ([r.value.0] + Contents(r.value.1, addrs))[1..];
  }
}
