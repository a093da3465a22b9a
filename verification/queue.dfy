/**
  `Queue`: a queue over a singly linked list with `head` and `tail` fields. `Enqueue`
  allocates a node and links it after the tail (or makes it both ends of an empty queue);
  `Dequeue` returns the head's value and moves the head on, clearing the tail when the
  queue runs empty, and throws `InvalidOperationException` on an empty queue.
*/
module ListBasedQueue {
  import opened Errors
  import opened HeapLists

  /** The queue's fields, with the node heap and the address the next `new Node()` gets. */
  datatype Queue<T> = Queue(heap: Heap<T>, head: Ptr, tail: Ptr, free: nat)

  /**
    The queue's nodes, front first, are `addrs`; `tail` is the last of them (null when
    there is none); no allocated node sits at `free` or above.
  */
  ghost predicate QueueOf<T>(q: Queue<T>, addrs: seq<nat>) {
    && ListOf(q.heap, q.head, addrs)
    && q.tail == PtrTo(addrs, |addrs| - 1)
    && forall a :: a in q.heap ==> a < q.free
  }

  /** The two ends agree: both are null or neither is, and the tail node is the last one, linking to null. */
  lemma QueueEnds<T>(q: Queue<T>, addrs: seq<nat>)
    requires QueueOf(q, addrs)
    ensures q.head == Null <==> q.tail == Null
    ensures q.tail != Null ==> q.tail.a in q.heap && q.heap[q.tail.a].next == Null
  {
    ListHead(q.heap, q.head, addrs);
    if q.tail != Null {
      ListLink(q.heap, q.head, addrs, |addrs| - 1);
    }
  }

  /** The values in the queue, front first. */
  ghost function Contents<T>(q: Queue<T>, addrs: seq<nat>): (vs: seq<T>)
    requires QueueOf(q, addrs)
    ensures |vs| == |addrs|
  {
    Values(q.heap, q.head, addrs)
  }

  /** A new queue: no nodes. */
  function Empty<T>(): (q: Queue<T>)
    ensures QueueOf(q, []) && Contents(q, []) == []
  {
    Queue(map[], Null, Null, 0)
  }

  /** `IsEmpty`: the head is null exactly when the queue holds no value. */
  function IsEmpty<T>(q: Queue<T>, ghost addrs: seq<nat>): (r: bool)
    requires QueueOf(q, addrs)
    ensures r <==> Contents(q, addrs) == []
  {
    q.head == Null
  }

  /**
    `Enqueue`: the new node, at a fresh address, joins at the back and carries `value`;
    of the nodes already allocated only the old tail changes, and only its `Next`.
  */
  function Enqueue<T>(q: Queue<T>, value: T, ghost addrs: seq<nat>): (q': Queue<T>)
    requires QueueOf(q, addrs)
    ensures q.free !in q.heap && QueueOf(q', addrs + [q.free])
    ensures Contents(q', addrs + [q.free]) == Contents(q, addrs) + [value]
    ensures forall a :: a in q.heap ==> a in q'.heap && q'.heap[a].value == q.heap[a].value
    ensures forall a :: a in q.heap && Addr(a) != q.tail ==> q'.heap[a] == q.heap[a]
  {
    var node := q.free;
    var heap := q.heap[node := Node(value, Null)];
    if IsEmpty(q, addrs) then
      assert addrs == [];
      assert ListOf(heap, Addr(node), [node]);
      Queue(heap, Addr(node), Addr(node), node + 1)
    else
      ListNodes(q.heap, q.head, addrs);
      var heap' := heap[q.tail.a := heap[q.tail.a].(next := Addr(node))];
      Appended(q.heap, heap', q.head, addrs, node, value);
      Queue(heap', q.head, Addr(node), node + 1)
  }

  /**
    Giving the last node of a list a successor at a fresh address `node`, which links to
    null and carries `value`, appends `node` to the list and `value` to its values.
  */
  lemma {:induction false} Appended<T>(h: Heap<T>, h': Heap<T>, p: Ptr, addrs: seq<nat>, node: nat, value: T)
    requires ListOf(h, p, addrs) && |addrs| > 0 && node !in h && addrs[|addrs| - 1] in h
    requires h' == h[node := Node(value, Null)][addrs[|addrs| - 1] := h[addrs[|addrs| - 1]].(next := Addr(node))]
    ensures ListOf(h', p, addrs + [node])
    ensures Values(h', p, addrs + [node]) == Values(h, p, addrs) + [value]
  {
    AppendLinks(h, h', p, addrs, node, value);
    var vs, ws := Values(h, p, addrs), Values(h', p, addrs + [node]);
    ListNodes(h, p, addrs);
    forall k | 0 <= k < |ws| ensures ws[k] == (vs + [value])[k] {
      if k < |addrs| {
        assert (addrs + [node])[k] == addrs[k] && addrs[k] != node;
      }
    }
  }

  /** The links part of `Appended`, by induction along the list. */
  lemma {:induction false} AppendLinks<T>(h: Heap<T>, h': Heap<T>, p: Ptr, addrs: seq<nat>, node: nat, value: T)
    requires ListOf(h, p, addrs) && |addrs| > 0 && node !in h && addrs[|addrs| - 1] in h
    requires h' == h[node := Node(value, Null)][addrs[|addrs| - 1] := h[addrs[|addrs| - 1]].(next := Addr(node))]
    ensures ListOf(h', p, addrs + [node])
    decreases |addrs|
  {
    var last := addrs[|addrs| - 1];
    var longer := addrs + [node];
    assert longer[0] == addrs[0] && addrs[0] != node;
    if |addrs| == 1 {
      assert longer[1..] == [node];
      assert ListOf(h', Addr(node), [node]);
    } else {
      ListNodes(h, p, addrs);
      var rest := addrs[1..];
      assert rest[|rest| - 1] == last && addrs[0] != last;
      AppendLinks(h, h', h[addrs[0]].next, rest, node, value);
      assert longer[1..] == rest + [node];
      assert addrs[0] !in rest + [node];
    }
  }

  /**
    `Dequeue`: an empty queue throws; otherwise the front value comes back and the rest
    of the queue, in order, remains, with the tail cleared once nothing remains.
  */
  function Dequeue<T>(q: Queue<T>, ghost addrs: seq<nat>): (r: Result<(T, Queue<T>)>)
    requires QueueOf(q, addrs)
    ensures r.Err? <==> addrs == []
    ensures r.Err? ==> r.error == InvalidOperation
    ensures r.Ok? ==> QueueOf(r.value.1, addrs[1..]) && r.value.1.heap == q.heap
    ensures r.Ok? ==> [r.value.0] + Contents(r.value.1, addrs[1..]) == Contents(q, addrs)
  {
    if IsEmpty(q, addrs) then Err(InvalidOperation)
    else
      var result := q.heap[q.head.a].value;
      var head := q.heap[q.head.a].next;
      var q' := if head == Null then q.(head := head, tail := Null) else q.(head := head);
      Dequeued(q, addrs);
      Ok((result, q'))
  }

  /** Moving the head on leaves the rest of the list with the same last node. */
  lemma Dequeued<T>(q: Queue<T>, addrs: seq<nat>)
    requires QueueOf(q, addrs) && q.head != Null
    ensures var head := q.heap[q.head.a].next;
      var q' := if head == Null then q.(head := head, tail := Null) else q.(head := head);
      && QueueOf(q', addrs[1..])
      && [q.heap[q.head.a].value] + Contents(q', addrs[1..]) == Contents(q, addrs)
  {
    var head := q.heap[q.head.a].next;
    var q' := if head == Null then q.(head := head, tail := Null) else q.(head := head);
    assert |addrs| > 0 && ListOf(q.heap, head, addrs[1..]);
    assert head == Null <==> |addrs| == 1;
    assert QueueOf(q', addrs[1..]);
    var vs, ws := Contents(q, addrs), Contents(q', addrs[1..]);
    forall k | 0 <= k < |vs| ensures ([q.heap[q.head.a].value] + ws)[k] == vs[k] {
      if k > 0 {
        assert addrs[1..][k - 1] == addrs[k];
      }
    }
  }

  /**
    First in, first out: enqueuing onto an empty queue and dequeuing gives the value back;
    on a non-empty queue the dequeue gives the old front and leaves the old rest followed
    by the new value.
  */
  lemma {:induction false} DequeueAfterEnqueue<T>(q: Queue<T>, value: T, addrs: seq<nat>)
    requires QueueOf(q, addrs)
    ensures var grown := addrs + [q.free];
      var r := Dequeue(Enqueue(q, value, addrs), grown);
      && r.Ok?
      && (addrs == [] ==> r.value.0 == value && Contents(r.value.1, grown[1..]) == [])
      && (addrs != [] ==> r.value.0 == Contents(q, addrs)[0])
      && (addrs != [] ==> Contents(r.value.1, grown[1..]) == Contents(q, addrs)[1..] + [value])
  {
    var grown := addrs + [q.free];
    var q' := Enqueue(q, value, addrs);
    var r := Dequeue(q', grown);
    var vs, ws := Contents(q, addrs), Contents(r.value.1, grown[1..]);
    assert [r.value.0] + ws == vs + [value];
    assert ws == ([r.value.0] + ws)[1..];
    if addrs != [] {
      assert (vs + [value])[1..] == vs[1..] + [value];
    }
  }
}
