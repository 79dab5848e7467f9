// A doubly linked list: a chain of nodes with `next` and `prev` links, a head, a tail
// and a cached length.  Its abstract value is the sequence of the nodes' data.

module LinkedLists {
  import opened Options

  // ---------------------------------------------------------------------------
  // The sequence model: what the list operations compute on the abstract value
  // ---------------------------------------------------------------------------

  /** Position of the first occurrence of `x` in `s`, or -1 when there is none. */
  function FirstIndex<T(==)>(s: seq<T>, x: T): (r: int)
    ensures -1 <= r < |s|
    ensures r == -1 <==> x !in s
    ensures 0 <= r ==> s[r] == x && x !in s[..r]
  {
    if s == [] then -1
    else if s[0] == x then 0
    else
      var i := FirstIndex(s[1..], x);
      assert s[1..] == s[..|s|][1..];
      if i == -1 then -1
      else
        assert s[..i + 1] == [s[0]] + s[1..][..i];
        i + 1
  }

  /** Position of the last occurrence of `x` in `s`, or -1 when there is none. */
  function LastIndex<T(==)>(s: seq<T>, x: T): (r: int)
    ensures -1 <= r < |s|
    ensures r == -1 <==> x !in s
    ensures 0 <= r ==> s[r] == x && x !in s[r + 1..]
  {
    if s == [] then -1
    else if s[|s| - 1] == x then |s| - 1
    else
      assert s == s[..|s| - 1] + [s[|s| - 1]];
      var i := LastIndex(s[..|s| - 1], x);
      if i == -1 then -1
      else
        assert s[i + 1..] == s[..|s| - 1][i + 1..] + [s[|s| - 1]];
        i
  }

  /** `s` without its first occurrence of `x` (unchanged when `x` does not occur). */
  function RemoveFirst<T(==)>(s: seq<T>, x: T): (r: seq<T>)
    ensures x !in s ==> r == s
    ensures multiset(r) == multiset(s) - multiset{x}
  {
    if s == [] then []
    else
      assert s == [s[0]] + s[1..];
      if s[0] == x then s[1..] else [s[0]] + RemoveFirst(s[1..], x)
  }

  /** `s` with every element that belongs to `xs` dropped, the others kept in order. */
  function Without<T(==)>(s: seq<T>, xs: set<T>): (r: seq<T>)
    ensures |r| <= |s|
  {
    if s == [] then []
    else Without(s[..|s| - 1], xs) + (if s[|s| - 1] in xs then [] else [s[|s| - 1]])
  }

  /** Inserting `e` where `b` ends extends `b` by `e`. */
  lemma SpliceStep<T>(a: seq<T>, b: seq<T>, c: seq<T>, e: T)
    ensures var s := a + b + c; s[..|a| + |b|] + [e] + s[|a| + |b|..] == a + (b + [e]) + c
  {
    var s := a + b + c;
    assert s[..|a| + |b|] == a + b;
    assert s[|a| + |b|..] == c;
  }

  /** Advancing one position in two sequences whose suffixes agree. */
  lemma SuffixStep<T>(xs: seq<T>, ys: seq<T>, p: int, k: int)
    requires 0 <= p < |xs| && 0 <= k <= |ys| && xs[p..] == ys[k..]
    ensures k < |ys| && xs[p] == ys[k] && xs[p + 1..] == ys[k + 1..]
    ensures xs[..p + 1] == xs[..p] + [xs[p]]
  {
    assert xs[p..][0] == xs[p];
    assert xs[p + 1..] == xs[p..][1..];
    assert ys[k + 1..] == ys[k..][1..];
  }

  /** The unique index characterisation of `FirstIndex`. */
  lemma FirstIndexAt<T>(s: seq<T>, x: T, i: int)
    requires 0 <= i < |s| && s[i] == x && forall j :: 0 <= j < i ==> s[j] != x
    ensures FirstIndex(s, x) == i
  {
    var j := FirstIndex(s, x);
    assert j >= i;
  }

  /** The unique index characterisation of `LastIndex`. */
  lemma LastIndexAt<T>(s: seq<T>, x: T, i: int)
    requires 0 <= i < |s| && s[i] == x && forall j :: i < j < |s| ==> s[j] != x
    ensures LastIndex(s, x) == i
  {
    var j := LastIndex(s, x);
    assert j <= i;
  }

  /** Removing the first occurrence found at `i` drops exactly position `i`. */
  lemma {:induction false} RemoveFirstAt<T>(s: seq<T>, x: T, i: int)
    requires 0 <= i < |s| && s[i] == x && x !in s[..i]
    ensures RemoveFirst(s, x) == s[..i] + s[i + 1..]
  {
    if i > 0 {
      assert s[0] == s[..i][0];
      assert s[1..][..i - 1] == s[1..i];
      RemoveFirstAt(s[1..], x, i - 1);
      assert s[..i] == [s[0]] + s[1..i];
    }
  }

  /** Hence the removed position is the one `FirstIndex` reports. */
  lemma RemoveFirstIndex<T>(s: seq<T>, x: T)
    requires x in s
    ensures RemoveFirst(s, x) == s[..FirstIndex(s, x)] + s[FirstIndex(s, x) + 1..]
  {
    RemoveFirstAt(s, x, FirstIndex(s, x));
  }

  /** `Without` distributes over concatenation, so it keeps the relative order. */
  lemma {:induction false} WithoutConcat<T>(a: seq<T>, b: seq<T>, xs: set<T>)
    ensures Without(a + b, xs) == Without(a, xs) + Without(b, xs)
    decreases |b|
  {
    if b == [] {
      assert a + b == a;
    } else {
      var init, last := b[..|b| - 1], b[|b| - 1];
      assert a + b == (a + init) + [last];
      assert (a + b)[..|a + b| - 1] == a + init;
      WithoutConcat(a, init, xs);
    }
  }

  /** One more element of the input adds at most that element to the output. */
  lemma WithoutStep<T>(s: seq<T>, k: int, xs: set<T>)
    requires 0 <= k < |s|
    ensures Without(s[..k + 1], xs) == Without(s[..k], xs) + (if s[k] in xs then [] else [s[k]])
  {
    assert s[..k + 1][..k] == s[..k];
  }

  /** Each element's count after `Without`: zero for dropped values, unchanged for the rest. */
  lemma {:induction false} WithoutCount<T>(s: seq<T>, xs: set<T>, y: T)
    ensures multiset(Without(s, xs))[y] == if y in xs then 0 else multiset(s)[y]
    decreases |s|
  {
    if s != [] {
      var init, last := s[..|s| - 1], s[|s| - 1];
      assert s == init + [last];
      WithoutCount(init, xs, y);
    }
  }

  /** What survives `Without`: exactly the elements of `s` outside `xs`. */
  lemma WithoutMembers<T>(s: seq<T>, xs: set<T>)
    ensures forall y :: y in Without(s, xs) <==> y in s && y !in xs
  {
    forall y
      ensures y in Without(s, xs) <==> y in s && y !in xs
    {
      WithoutCount(s, xs, y);
    }
  }

  /** `Without` shortens `s` exactly when some element of `s` is in `xs`. */
  lemma {:induction false} WithoutShorter<T>(s: seq<T>, xs: set<T>)
    ensures |Without(s, xs)| < |s| <==> exists i :: 0 <= i < |s| && s[i] in xs
    decreases |s|
  {
    if s != [] {
      var init, last := s[..|s| - 1], s[|s| - 1];
      WithoutShorter(init, xs);
      if exists i :: 0 <= i < |init| && init[i] in xs {
        var i :| 0 <= i < |init| && init[i] in xs;
        assert s[i] in xs;
      }
      if exists i :: 0 <= i < |s| && s[i] in xs {
        var i :| 0 <= i < |s| && s[i] in xs;
        if i < |init| {
          assert init[i] in xs;
        }
      }
    }
  }

  /** `Without` changes `s` exactly when some element of `s` is in `xs`. */
  lemma {:induction false} WithoutUnchanged<T>(s: seq<T>, xs: set<T>)
    ensures Without(s, xs) == s <==> forall i :: 0 <= i < |s| ==> s[i] !in xs
    decreases |s|
  {
    if s != [] {
      var init, last := s[..|s| - 1], s[|s| - 1];
      assert s == init + [last];
      WithoutUnchanged(init, xs);
      if Without(s, xs) == s {
        assert |Without(init, xs)| == |init|;
        assert Without(init, xs) == init;
      }
    }
  }

  // ---------------------------------------------------------------------------
  // Nodes
  // ---------------------------------------------------------------------------

  class LinkedListNode<T> {
    var data: T
    var next: LinkedListNode?<T>
    var prev: LinkedListNode?<T>

    /** A node holding `data`; without further arguments it is linked to nothing. */
    constructor(data: T, next: LinkedListNode?<T> := null, prev: LinkedListNode?<T> := null)
      ensures this.data == data && this.next == next && this.prev == prev
    {
      this.data, this.next, this.prev := data, next, prev;
    }
  }

  // ---------------------------------------------------------------------------
  // The list
  // ---------------------------------------------------------------------------

  class LinkedList<T(==)> {
    var head: LinkedListNode?<T>
    var tail: LinkedListNode?<T>
    var length: int
    /** The nodes from head to tail, and the elements they hold. */
    ghost var nodes: seq<LinkedListNode<T>>
    ghost var items: seq<T>
    /** Every node the list may touch: those of the chain, and possibly nodes unlinked since. */
    ghost var Repr: set<LinkedListNode<T>>

    /**
     * The chain of links: the nodes belong to `Repr`, `head` and `tail` are the first and
     * the last node, `prev` mirrors `next`, `head.prev` and `tail.next` are null, and
     * the nodes hold `items` in order.
     */
    ghost predicate Linked()
      reads this`head, this`tail, this`nodes, this`items, this`Repr, Repr
    {
      && (forall i :: 0 <= i < |nodes| ==> nodes[i] in Repr)
      && head == (if nodes == [] then null else nodes[0])
      && tail == (if nodes == [] then null else nodes[|nodes| - 1])
      && (nodes != [] ==> nodes[0].prev == null && nodes[|nodes| - 1].next == null)
      && (forall i :: 0 <= i < |nodes| - 1 ==> nodes[i].next == nodes[i + 1])
      && (forall i :: 0 < i < |nodes| ==> nodes[i].prev == nodes[i - 1])
      && |items| == |nodes|
      && (forall i {:trigger nodes[i].data} :: 0 <= i < |nodes| ==> nodes[i].data == items[i])
    }

    /** The nodes of the chain are distinct; this follows from the `prev` links. */
    lemma {:induction false} Distinct(i: int, j: int)
      requires Linked() && 0 <= i < j < |nodes|
      ensures nodes[i] != nodes[j]
      decreases i
    {
      if i == 0 {
        assert nodes[j].prev == nodes[j - 1];
      } else if nodes[i] == nodes[j] {
        assert nodes[i - 1] == nodes[i].prev == nodes[j].prev == nodes[j - 1];
        Distinct(i - 1, j - 1);
      }
    }

    lemma DistinctFrom(p: int)
      requires Linked() && 0 <= p < |nodes|
      ensures forall i :: 0 <= i < |nodes| && i != p ==> nodes[i] != nodes[p]
    {
      forall i | 0 <= i < |nodes| && i != p
        ensures nodes[i] != nodes[p]
      {
        if i < p {
          Distinct(i, p);
        } else {
          Distinct(p, i);
        }
      }
    }

    /** The links around the node at position `p`. */
    lemma Neighbours(p: int)
      requires Linked() && 0 <= p < |nodes|
      ensures nodes[p].prev == (if p == 0 then null else nodes[p - 1])
      ensures nodes[p].next == (if p == |nodes| - 1 then null else nodes[p + 1])
      ensures nodes[p].prev != null ==> nodes[p].prev in Repr
      ensures nodes[p].next != null ==> nodes[p].next in Repr
    {
    }

    /** The structural invariant: a well-linked chain whose length is the node count. */
    ghost predicate Valid()
      reads this, Repr
    {
      Linked() && length == |nodes|
    }

    /** The abstract value: the elements from head to tail. */
    ghost function Model(): seq<T>
      reads this
    {
      items
    }

    constructor()
      ensures Valid() && Model() == [] && Repr == {}
    {
      head, tail, length := null, null, 0;
      nodes, items, Repr := [], [], {};
    }

    method Size() returns (n: int)
      requires Valid()
      ensures n == |Model()|
    {
      n := length;
    }

    method IsEmpty() returns (b: bool)
      requires Valid()
      ensures b <==> Model() == []
    {
      b := length == 0;
    }

    /** The element at `index`; None stands for the IndexOutOfBoundsException. */
    method Get(index: int) returns (r: Option<T>)
      requires Valid()
      ensures r.Some? <==> 0 <= index < |Model()|
      ensures r.Some? ==> r.value == Model()[index]
    {
      if index < 0 || index >= length {
        return None;
      }
      var current := head;
      for i := 0 to index
        invariant current == nodes[i]
      {
        current := current.next;
      }
      r := Some(current.data);
    }

    /** Replaces the element at `index` and returns the one it held. */
    method Set(index: int, element: T) returns (r: Option<T>)
      requires Valid()
      modifies this, Repr
      ensures Valid() && nodes == old(nodes) && Repr == old(Repr)
      ensures r.Some? <==> 0 <= index < |old(Model())|
      ensures r.Some? ==> r.value == old(Model())[index] && Model() == old(Model())[index := element]
      ensures r.None? ==> Model() == old(Model())
    {
      if index < 0 || index >= length {
        return None;
      }
      var current := head;
      for i := 0 to index
        invariant current == nodes[i]
      {
        current := current.next;
      }
      var oldValue := current.data;
      DistinctFrom(index);
      current.data := element;
      items := items[index := element];
      r := Some(oldValue);
    }

    /** Appends `element` at the tail; always reports a change. */
    method Add(element: T) returns (r: bool)
      requires Valid()
      modifies this, Repr
      ensures Valid() && fresh(Repr - old(Repr))
      ensures r && Model() == old(Model()) + [element]
    {
      var node := LinkLast(element);
      length := length + 1;
      r := true;
    }

    /** Links a new node holding `element` after the tail; the length is left to the caller. */
    method LinkLast(element: T) returns (node: LinkedListNode<T>)
      requires Linked()
      modifies this, tail
      ensures Linked() && length == old(length) && fresh(node) && Repr == old(Repr) + {node}
      ensures nodes == old(nodes) + [node] && items == old(items) + [element] && node.next == null
    {
      node := new LinkedListNode(element);
      if tail == null {
        head, tail := node, node;
      } else {
        DistinctFrom(|nodes| - 1);
        tail.next := node;
        node.prev := tail;
        tail := node;
      }
      nodes, items, Repr := nodes + [node], items + [element], Repr + {node};
    }

    /**
     * Links a new node holding `element` just before `current`, found at position `q`;
     * the length is left to the caller.  The head case and the inner case are the
     * helpers below.
     */
    method LinkBefore(current: LinkedListNode<T>, ghost q: int, element: T) returns (node: LinkedListNode<T>)
      requires Linked() && 0 <= q < |nodes| && nodes[q] == current
      modifies this, current, current.prev
      ensures Linked() && length == old(length) && fresh(node) && Repr == old(Repr) + {node}
      ensures nodes == old(nodes[..q]) + [node] + old(nodes[q..])
      ensures items == old(items[..q]) + [element] + old(items[q..])
      ensures node.next == current
    {
      DistinctFrom(q);
      if current == head {
        node := LinkFirst(current, element);
        assert old(nodes)[..q] == [] && old(items)[..q] == [] && old(nodes)[q..] == old(nodes);
      } else {
        node := LinkInner(current, q, element);
      }
    }

    /** A new first node before the head `current`. */
    method LinkFirst(current: LinkedListNode<T>, element: T) returns (node: LinkedListNode<T>)
      requires Linked() && nodes != [] && nodes[0] == current
      modifies this, current
      ensures Linked() && length == old(length) && fresh(node) && Repr == old(Repr) + {node}
      ensures nodes == [node] + old(nodes) && items == [element] + old(items)
      ensures node.next == current
    {
      Neighbours(0);
      DistinctFrom(0);
      node := new LinkedListNode(element, current, current.prev);
      current.prev := node;
      head := node;
      nodes, items, Repr := [node] + nodes, [element] + items, Repr + {node};
    }

    /** A new node between position `q - 1` and `current` at position `q`. */
    method LinkInner(current: LinkedListNode<T>, ghost q: int, element: T) returns (node: LinkedListNode<T>)
      requires Linked() && 0 < q < |nodes| && nodes[q] == current
      modifies this, current, current.prev
      ensures Linked() && length == old(length) && fresh(node) && Repr == old(Repr) + {node}
      ensures nodes == old(nodes[..q]) + [node] + old(nodes[q..])
      ensures items == old(items[..q]) + [element] + old(items[q..])
      ensures node.next == current
    {
      Neighbours(q);
      DistinctFrom(q);
      DistinctFrom(q - 1);
      node := new LinkedListNode(element, current, current.prev);
      current.prev.next := node;
      current.prev := node;
      nodes, items, Repr := nodes[..q] + [node] + nodes[q..], items[..q] + [element] + items[q..], Repr + {node};
    }

    /** Inserts `element` before position `index`; false stands for the IndexOutOfBoundsException. */
    method AddAt(index: int, element: T) returns (ok: bool)
      requires Valid()
      modifies this, Repr
      ensures Valid() && fresh(Repr - old(Repr))
      ensures ok <==> 0 <= index <= |old(Model())|
      ensures ok ==> Model() == old(Model())[..index] + [element] + old(Model())[index..]
      ensures !ok ==> Model() == old(Model())
    {
      if index < 0 || index > length {
        return false;
      }
      if index == length {
        ok := Add(element);
        return;
      }
      var current := head;
      for i := 0 to index
        invariant current == nodes[i]
      {
        current := current.next;
      }
      Neighbours(index);
      var node := LinkBefore(current, index, element);
      length := length + 1;
      ok := true;
    }

    /** Appends every element in order; reports whether there was any. */
    method AddAll(elements: seq<T>) returns (added: bool)
      requires Valid()
      modifies this, Repr
      ensures Valid() && fresh(Repr - old(Repr))
      ensures added <==> elements != []
      ensures Model() == old(Model()) + elements
    {
      added := false;
      for i := 0 to |elements|
        invariant Valid() && fresh(Repr - old(Repr))
        invariant Model() == old(Model()) + elements[..i]
        invariant added <==> i > 0
      {
        var ignored := Add(elements[i]);
        added := true;
      }
    }

    /**
     * Inserts `elements` in order before position `index`.  None stands for the
     * IndexOutOfBoundsException; otherwise the result is `true`, even for no elements.
     */
    method AddAllAt(index: int, elements: seq<T>) returns (r: Option<bool>)
      requires Valid()
      modifies this, Repr
      ensures Valid() && fresh(Repr - old(Repr))
      ensures r.Some? <==> 0 <= index <= |old(Model())|
      ensures r.Some? ==> r.value && Model() == old(Model())[..index] + elements + old(Model())[index..]
      ensures r.None? ==> Model() == old(Model())
    {
      if index < 0 || index > length {
        return None;
      }
      var current := Seek(index);
      InsertAll(current, index, elements);
      length := length + |elements|;
      r := Some(true);
    }

    /** The walk of `AddAllAt`: the node at position `index`, or null past the tail. */
    method Seek(index: int) returns (current: LinkedListNode?<T>)
      requires Linked() && 0 <= index
      ensures current == (if index < |nodes| then nodes[index] else null)
    {
      current := head;
      var currentI := 0;
      while current != null && currentI < index
        invariant 0 <= currentI <= index
        invariant current == (if currentI < |nodes| then nodes[currentI] else null)
        decreases index - currentI
      {
        current := current.next;
        currentI := currentI + 1;
      }
    }

    /** The loop of `AddAllAt`: links `elements` in order before `current`, found at position `index`. */
    method InsertAll(current: LinkedListNode?<T>, ghost index: int, elements: seq<T>)
      requires Linked() && 0 <= index <= |nodes| && current == (if index < |nodes| then nodes[index] else null)
      modifies this, Repr
      ensures Linked() && length == old(length) && fresh(Repr - old(Repr))
      ensures items == old(items[..index]) + elements + old(items[index..])
    {
      var currentNode := current;
      ghost var m0 := items;
      for j := 0 to |elements|
        invariant Linked() && length == old(length) && |nodes| == |m0| + j
        invariant fresh(Repr - old(Repr))
        invariant items == m0[..index] + elements[..j] + m0[index..]
        invariant currentNode == (if index + j < |nodes| then nodes[index + j] else null)
      {
        currentNode := InsertElement(currentNode, index + j, elements[j]);
        SpliceStep(m0[..index], elements[..j], m0[index..], elements[j]);
        assert elements[..j + 1] == elements[..j] + [elements[j]];
      }
      assert elements[..|elements|] == elements;
    }

    /**
     * One step of `AddAllAt`: links a new node holding `element` before `current`, found
     * at position `q`, or after the tail when `current` is null; returns the node after
     * the new one.
     */
    method InsertElement(current: LinkedListNode?<T>, ghost q: int, element: T) returns (next: LinkedListNode?<T>)
      requires Linked() && 0 <= q <= |nodes| && current == (if q < |nodes| then nodes[q] else null)
      modifies this, Repr
      ensures Linked() && length == old(length) && fresh(Repr - old(Repr))
      ensures |nodes| == old(|nodes|) + 1 && nodes == old(nodes[..q]) + [nodes[q]] + old(nodes[q..])
      ensures items == old(items[..q]) + [element] + old(items[q..])
      ensures next == (if q + 1 < |nodes| then nodes[q + 1] else null)
    {
      if current == null {
        var node := LinkLast(element);
        next := node.next;
        assert old(nodes)[q..] == [] && old(items)[q..] == [] && old(items)[..q] == old(items);
      } else {
        Neighbours(q);
        var node := LinkBefore(current, q, element);
        next := node.next;
        assert nodes[q + 1] == old(nodes)[q];
      }
    }

    /**
     * Unlinks `node`, found at position `p`; a null node is ignored.  Only the node's
     * neighbours are written, and the length is left for the caller to adjust.  The
     * four cases of the unlinking are the helpers below.
     */
    method RemoveNode(node: LinkedListNode?<T>, ghost p: int)
      requires Linked()
      requires node == null || (0 <= p < |nodes| && nodes[p] == node)
      modifies this, if node == null then {} else {node.prev, node.next}
      ensures Linked() && length == old(length) && Repr == old(Repr)
      ensures node == null ==> nodes == old(nodes) && items == old(items)
      ensures node != null ==> |nodes| == old(|nodes|) - 1
      ensures node != null ==> nodes[..p] == old(nodes[..p]) && nodes[p..] == old(nodes[p + 1..])
      ensures node != null ==> items[..p] == old(items[..p]) && items[p..] == old(items[p + 1..])
    {
      if node == null {
        return;
      }
      DistinctFrom(p);
      if node == head && node == tail {
        UnlinkOnly(p);
      } else if node == head {
        UnlinkHead(node, p);
      } else if node == tail {
        UnlinkTail(node, p);
      } else {
        UnlinkInner(node, p);
        assert nodes[..p] == old(nodes[..p]) && nodes[p..] == old(nodes[p + 1..]);
        assert items[..p] == old(items[..p]) && items[p..] == old(items[p + 1..]);
      }
    }

    /** Unlinking the only node empties the chain. */
    method UnlinkOnly(ghost p: int)
      requires Linked() && |nodes| == 1 && p == 0
      modifies this
      ensures Linked() && length == old(length) && Repr == old(Repr)
      ensures nodes == [] && items == []
    {
      head, tail := null, null;
      nodes, items := [], [];
    }

    /** Unlinking the head of a chain of two or more nodes. */
    method UnlinkHead(node: LinkedListNode<T>, ghost p: int)
      requires Linked() && 1 < |nodes| && p == 0 && nodes[0] == node
      modifies this, node.next
      ensures Linked() && length == old(length) && Repr == old(Repr)
      ensures nodes == old(nodes[1..]) && items == old(items[1..])
    {
      Neighbours(0);
      DistinctFrom(1);
      head := node.next;
      if head != null {
        head.prev := null;
      }
      nodes, items := nodes[1..], items[1..];
    }

    /** Unlinking the tail of a chain of two or more nodes. */
    method UnlinkTail(node: LinkedListNode<T>, ghost p: int)
      requires Linked() && 0 < p == |nodes| - 1 && nodes[p] == node
      modifies this, node.prev
      ensures Linked() && length == old(length) && Repr == old(Repr)
      ensures nodes == old(nodes[..p]) && items == old(items[..p])
    {
      Neighbours(p);
      DistinctFrom(p - 1);
      tail := node.prev;
      if tail != null {
        tail.next := null;
      }
      nodes, items := nodes[..p], items[..p];
    }

    /** Unlinking a node that has neighbours on both sides. */
    method UnlinkInner(node: LinkedListNode<T>, ghost p: int)
      requires Linked() && 0 < p < |nodes| - 1 && nodes[p] == node
      modifies this, node.prev, node.next
      ensures Linked() && length == old(length) && Repr == old(Repr)
      ensures nodes == old(nodes[..p] + nodes[p + 1..]) && items == old(items[..p] + items[p + 1..])
    {
      Neighbours(p);
      DistinctFrom(p - 1);
      DistinctFrom(p + 1);
      if node.prev != null {
        node.prev.next := node.next;
      }
      if node.next != null {
        node.next.prev := node.prev;
      }
      nodes, items := nodes[..p] + nodes[p + 1..], items[..p] + items[p + 1..];
    }

    /** Removes and returns the element at `index`; None stands for the IndexOutOfBoundsException. */
    method RemoveAt(index: int) returns (r: Option<T>)
      requires Valid()
      modifies this, Repr
      ensures Valid() && Repr == old(Repr)
      ensures r.Some? <==> 0 <= index < |old(Model())|
      ensures r.Some? ==> r.value == old(Model())[index] && Model() == old(Model())[..index] + old(Model())[index + 1..]
      ensures r.None? ==> Model() == old(Model())
    {
      if index < 0 || index >= length {
        return None;
      }
      var current := head;
      for i := 0 to index
        invariant current == nodes[i]
      {
        current := current.next;
      }
      var value := current.data;
      RemoveCounted(current, index);
      assert items == items[..index] + items[index..];
      r := Some(value);
    }

    /** Removes the first element equal to `element`; reports whether there was one. */
    method Remove(element: T) returns (removed: bool)
      requires Valid()
      modifies this, Repr
      ensures Valid() && Repr == old(Repr)
      ensures removed <==> element in old(Model())
      ensures Model() == RemoveFirst(old(Model()), element)
    {
      var current := head;
      removed := false;
      ghost var i := 0;
      while current != null
        invariant Valid() && nodes == old(nodes) && Model() == old(Model())
        invariant 0 <= i <= |nodes| && current == (if i < |nodes| then nodes[i] else null)
        invariant element !in Model()[..i]
        invariant !removed
        decreases |nodes| - i
      {
        var nextNode := current.next;
        if current.data == element {
          RemoveFirstAt(old(Model()), element, i);
          RemoveCounted(current, i);
          assert items == items[..i] + items[i..];
          removed := true;
          break;
        }
        current := nextNode;
        i := i + 1;
      }
      if !removed {
        assert Model()[..i] == Model();
      }
    }

    /**
     * Removes every element that occurs in `elements`, keeping the others in order;
     * reports whether anything was removed.
     */
    method RemoveAll(elements: seq<T>) returns (removed: bool)
      requires Valid()
      modifies this, Repr
      ensures Valid() && Repr == old(Repr)
      ensures Model() == Without(old(Model()), set e | e in elements)
      ensures removed <==> exists e :: e in old(Model()) && e in elements
    {
      if length == 0 {
        return false;
      }
      var toRemove := set e | e in elements;
      ghost var m0 := items;
      removed := RemoveIn(toRemove);
      WithoutShorter(m0, toRemove);
      if removed {
        ghost var i :| 0 <= i < |m0| && m0[i] in toRemove;
        assert m0[i] in m0;
      }
    }

    /** The loop of `removeAll`: unlinks, front to back, every node whose element is in `toRemove`. */
    method RemoveIn(toRemove: set<T>) returns (removed: bool)
      requires Valid()
      modifies this, Repr
      ensures Valid() && Repr == old(Repr)
      ensures items == Without(old(items), toRemove)
      ensures removed <==> |items| < |old(items)|
    {
      var current := head;
      removed := false;
      ghost var m0 := items;
      ghost var k, p := 0, 0;
      while current != null
        invariant Valid() && Repr == old(Repr)
        invariant 0 <= p <= |nodes| && 0 <= k <= |m0| && |nodes| - p == |m0| - k
        invariant items[..p] == Without(m0[..k], toRemove)
        invariant items[p..] == m0[k..]
        invariant current == (if p < |nodes| then nodes[p] else null)
        invariant removed <==> p < k
        decreases |m0| - k
      {
        var nextNode := current.next;
        Neighbours(p);
        WithoutStep(m0, k, toRemove);
        SuffixStep(items, m0, p, k);
        ghost var kept := Without(m0[..k], toRemove);
        if current.data in toRemove {
          assert Without(m0[..k + 1], toRemove) == kept;
          RemoveCounted(current, p);
          assert items[p..] == m0[k + 1..];
          removed := true;
        } else {
          assert Without(m0[..k + 1], toRemove) == kept + [m0[k]];
          assert items[p + 1..] == m0[k + 1..];
          p := p + 1;
        }
        current := nextNode;
        k := k + 1;
      }
      assert m0[..k] == m0 && items[..p] == items;
    }

    /** A removal in `remove` and `removeAll`: `removeNode` followed by the length update. */
    method RemoveCounted(node: LinkedListNode<T>, ghost p: int)
      requires Valid() && 0 <= p < |nodes| && nodes[p] == node
      modifies this, Repr
      ensures Valid() && Repr == old(Repr)
      ensures |nodes| == old(|nodes|) - 1
      ensures nodes[..p] == old(nodes[..p]) && nodes[p..] == old(nodes[p + 1..])
      ensures items[..p] == old(items[..p]) && items[p..] == old(items[p + 1..])
    {
      Neighbours(p);
      RemoveNode(node, p);
      length := length - 1;
    }

    /** Empties the list. */
    method Clear()
      modifies this
      ensures Valid() && Model() == [] && Repr == {}
    {
      head, tail, length := null, null, 0;
      nodes, items, Repr := [], [], {};
    }

    /** Scans from the tail; the position of the last equal element, or -1. */
    method LastIndexOf(element: T) returns (r: int)
      requires Valid()
      ensures r == LastIndex(Model(), element)
    {
      var current := tail;
      var i := length - 1;
      while current != null
        invariant -1 <= i < |nodes| && current == (if i >= 0 then nodes[i] else null)
        invariant forall j :: i < j < |items| ==> items[j] != element
        decreases i
      {
        if current.data == element {
          LastIndexAt(Model(), element, i);
          return i;
        }
        current := current.prev;
        i := i - 1;
      }
      return -1;
    }

    /** Scans from the head; the position of the first equal element, or -1. */
    method IndexOf(element: T) returns (r: int)
      requires Valid()
      ensures r == FirstIndex(Model(), element)
    {
      var current := head;
      var i := 0;
      while current != null
        invariant 0 <= i <= |nodes| && current == (if i < |nodes| then nodes[i] else null)
        invariant forall j :: 0 <= j < i ==> items[j] != element
        decreases |nodes| - i
      {
        if current.data == element {
          FirstIndexAt(Model(), element, i);
          return i;
        }
        current := current.next;
        i := i + 1;
      }
      return -1;
    }

    method ContainsAll(elements: seq<T>) returns (b: bool)
      requires Valid()
      ensures b <==> forall e :: e in elements ==> e in Model()
    {
      for i := 0 to |elements|
        invariant forall k :: 0 <= k < i ==> elements[k] in Model()
      {
        var c := Contains(elements[i]);
        if !c {
          return false;
        }
      }
      return true;
    }

    method Contains(element: T) returns (b: bool)
      requires Valid()
      ensures b <==> element in Model()
    {
      var current := head;
      ghost var i := 0;
      while current != null
        invariant 0 <= i <= |nodes| && current == (if i < |nodes| then nodes[i] else null)
        invariant forall j :: 0 <= j < i ==> items[j] != element
        decreases |nodes| - i
      {
        if current.data == element {
          return true;
        }
        current := current.next;
        i := i + 1;
      }
      return false;
    }

    /** A new list holding `elements` in order. */
    static method From(elements: seq<T>) returns (list: LinkedList<T>)
      ensures list.Valid() && fresh(list) && fresh(list.Repr)
      ensures list.Model() == elements
    {
      list := new LinkedList();
      var ignored := list.AddAll(elements);
    }

    /** `iterator()`: a forward iterator over this list, at position 0. */
    method Iterator() returns (it: IteratorImpl<T>)
      ensures fresh(it) && it.list == this && it.index == 0
    {
      it := new IteratorImpl(this);
    }
  }

  /**
   * IteratorImpl: a position into the list that made it.  `hasNext` and `next`
   * read the list by index, so they see what it holds at the time of the call.
   */
  class IteratorImpl<T(==)> {
    const list: LinkedList<T>
    var index: int

    constructor (list: LinkedList<T>)
      ensures this.list == list && index == 0
    {
      this.list := list;
      index := 0;
    }

    /** `hasNext()`: `size > index`. */
    method HasNext() returns (b: bool)
      requires list.Valid()
      ensures b <==> index < |list.Model()|
    {
      var n := list.Size();
      b := n > index;
    }

    /**
     * `next()`: `this@LinkedList[index++]`.  The position moves on in every
     * case; the element is the one at the old position, and None stands for
     * the IndexOutOfBoundsException past the end.
     */
    method Next() returns (r: Option<T>)
      requires list.Valid()
      modifies this`index
      ensures index == old(index) + 1
      ensures r.Some? <==> 0 <= old(index) < |list.Model()|
      ensures r.Some? ==> r.value == list.Model()[old(index)]
    {
      var i := index;
      index := index + 1;
      r := list.Get(i);
    }
  }
}
