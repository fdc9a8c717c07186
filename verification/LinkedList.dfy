/** The doubly linked list of lab3/ctcp_linked_list.c. Each operation refines the
    operation of the same purpose on the sequence of nodes. */
module DoublyLinkedList {
  import opened Machine

  class Node {
    var next: Node?
    var prev: Node?
    const obj: object

    /** ll_create_node */
    constructor (o: object)
      ensures next == null && prev == null && obj == o
    {
      next, prev, obj := null, null, o;
    }
  }

  /** The node at position i, null beyond either end. */
  ghost function At(nodes: seq<Node>, i: int): Node? {
    if 0 <= i < |nodes| then nodes[i] else null
  }

  ghost predicate Distinct(nodes: seq<Node>) {
    forall i, j :: 0 <= i < j < |nodes| ==> nodes[i] != nodes[j]
  }

  /** next leads from each node to the following one in the sequence. */
  ghost predicate Forward(nodes: seq<Node>)
    reads nodes`next
  {
    forall i {:trigger nodes[i].next} :: 0 <= i < |nodes| ==> nodes[i].next == At(nodes, i + 1)
  }

  /** prev leads back. */
  ghost predicate Backward(nodes: seq<Node>)
    reads nodes`prev
  {
    forall i {:trigger nodes[i].prev} :: 0 <= i < |nodes| ==> nodes[i].prev == At(nodes, i - 1)
  }

  /** The same except that the node at position k has next x. */
  ghost predicate ForwardBut(nodes: seq<Node>, k: int, x: Node?)
    reads nodes`next
  {
    forall i {:trigger nodes[i].next} :: 0 <= i < |nodes| ==> nodes[i].next == if i == k then x else At(nodes, i + 1)
  }

  /** The same except that the node at position k has prev x. */
  ghost predicate BackwardBut(nodes: seq<Node>, k: int, x: Node?)
    reads nodes`prev
  {
    forall i {:trigger nodes[i].prev} :: 0 <= i < |nodes| ==> nodes[i].prev == if i == k then x else At(nodes, i - 1)
  }

  /** node->next = x for the node at position k. */
  method SetNext(node: Node, x: Node?, ghost nodes: seq<Node>, ghost k: nat)
    requires Distinct(nodes) && Forward(nodes) && k < |nodes| && nodes[k] == node
    modifies node`next
    ensures ForwardBut(nodes, k, x) && node.next == x
  {
    node.next := x;
  }

  /** node->prev = x for the node at position k. */
  method SetPrev(node: Node, x: Node?, ghost nodes: seq<Node>, ghost k: nat)
    requires Distinct(nodes) && Backward(nodes) && k < |nodes| && nodes[k] == node
    modifies node`prev
    ensures BackwardBut(nodes, k, x) && node.prev == x
  {
    node.prev := x;
  }

  lemma NothingSet(nodes: seq<Node>)
    ensures Forward(nodes) ==> forall x :: ForwardBut(nodes, -1, x)
    ensures Backward(nodes) ==> forall x :: BackwardBut(nodes, |nodes|, x)
  {
  }

  /** The sequence with a node put in at position p. */
  ghost function Inserted(nodes: seq<Node>, p: nat, added: Node): seq<Node>
    requires p <= |nodes|
  {
    nodes[..p] + [added] + nodes[p..]
  }

  lemma InsertedAt(nodes: seq<Node>, p: nat, added: Node, i: int)
    requires p <= |nodes|
    ensures var s := Inserted(nodes, p, added);
            |s| == |nodes| + 1 && At(s, i) == if i < p then At(nodes, i) else if i == p then added else At(nodes, i - 1)
  {
  }

  lemma DistinctInserted(nodes: seq<Node>, p: nat, added: Node)
    requires p <= |nodes| && Distinct(nodes) && added !in nodes
    ensures Distinct(Inserted(nodes, p, added))
  {
  }

  /** A node put in, once its own pointer and that of its neighbour are set. */
  lemma SplicedForward(nodes: seq<Node>, p: nat, added: Node)
    requires p <= |nodes| && added.next == At(nodes, p) && ForwardBut(nodes, p - 1, added)
    ensures Forward(Inserted(nodes, p, added))
  {
    hide Inserted;
    var s := Inserted(nodes, p, added);
    forall i | 0 <= i < |s| ensures s[i].next == At(s, i + 1) {
      InsertedAt(nodes, p, added, i);
      InsertedAt(nodes, p, added, i + 1);
    }
  }

  lemma SplicedBackward(nodes: seq<Node>, p: nat, added: Node)
    requires p <= |nodes| && added.prev == At(nodes, p - 1) && BackwardBut(nodes, p, added)
    ensures Backward(Inserted(nodes, p, added))
  {
    hide Inserted;
    var s := Inserted(nodes, p, added);
    forall i | 0 <= i < |s| ensures s[i].prev == At(s, i - 1) {
      InsertedAt(nodes, p, added, i);
      InsertedAt(nodes, p, added, i - 1);
    }
  }

  /** The sequence without the node at position k. */
  ghost function Without(nodes: seq<Node>, k: nat): seq<Node>
    requires k < |nodes|
  {
    nodes[..k] + nodes[k + 1..]
  }

  lemma WithoutAt(nodes: seq<Node>, k: nat, i: int)
    requires k < |nodes|
    ensures var s := Without(nodes, k);
            |s| == |nodes| - 1 && At(s, i) == if i < k then At(nodes, i) else At(nodes, i + 1)
  {
  }

  lemma DistinctWithout(nodes: seq<Node>, k: nat)
    requires k < |nodes| && Distinct(nodes)
    ensures Distinct(Without(nodes, k))
  {
  }

  /** A node whose neighbour no longer points to it. */
  lemma CutForward(nodes: seq<Node>, k: nat)
    requires k < |nodes| && ForwardBut(nodes, k - 1, At(nodes, k + 1))
    ensures Forward(Without(nodes, k))
  {
    hide Without;
    var s := Without(nodes, k);
    forall i | 0 <= i < |s| ensures s[i].next == At(s, i + 1) {
      WithoutAt(nodes, k, i);
      WithoutAt(nodes, k, i + 1);
    }
  }

  lemma CutBackward(nodes: seq<Node>, k: nat)
    requires k < |nodes| && BackwardBut(nodes, k + 1, At(nodes, k - 1))
    ensures Backward(Without(nodes, k))
  {
    hide Without;
    var s := Without(nodes, k);
    forall i | 0 <= i < |s| ensures s[i].prev == At(s, i - 1) {
      WithoutAt(nodes, k, i);
      WithoutAt(nodes, k, i - 1);
    }
  }

  lemma EndsInserted(nodes: seq<Node>, p: nat, added: Node)
    requires 0 < p <= |nodes|
    ensures var s := Inserted(nodes, p, added);
            |s| == |nodes| + 1 && At(s, 0) == At(nodes, 0)
            && At(s, |s| - 1) == if p == |nodes| then added else At(nodes, |nodes| - 1)
  {
  }

  lemma EndsWithout(nodes: seq<Node>, k: nat)
    requires k < |nodes|
    ensures var s := Without(nodes, k);
            && |s| == |nodes| - 1
            && At(s, 0) == (if k == 0 then At(nodes, 1) else At(nodes, 0))
            && At(s, |s| - 1) == if k == |nodes| - 1 then At(nodes, k - 1) else At(nodes, |nodes| - 1)
  {
  }

  lemma EndsFirst(nodes: seq<Node>, added: Node)
    ensures var s := [added] + nodes;
            At(s, 0) == added && At(s, |s| - 1) == if nodes == [] then added else At(nodes, |nodes| - 1)
    ensures nodes == [] <==> At(nodes, 0) == null
  {
  }

  lemma EndsLast(nodes: seq<Node>, added: Node)
    ensures var s := nodes + [added];
            At(s, |s| - 1) == added && At(s, 0) == if nodes == [] then added else At(nodes, 0)
    ensures nodes == [] <==> At(nodes, 0) == null
  {
  }

  lemma InsertedParts(nodes: seq<Node>, p: nat, added: Node)
    requires p <= |nodes|
    ensures Inserted(nodes, p, added) == nodes[..p] + [added] + nodes[p..]
  {
  }

  lemma InsertedLast(nodes: seq<Node>, added: Node)
    ensures Inserted(nodes, |nodes|, added) == nodes + [added]
  {
  }

  lemma InsertedFirst(nodes: seq<Node>, added: Node)
    ensures Inserted(nodes, 0, added) == [added] + nodes
  {
  }

  ghost predicate Counted(length: uint32, n: nat) {
    length == n % TWO_32
  }

  lemma CountUp(length: uint32, n: nat)
    requires Counted(length, n)
    ensures Counted((length + 1) % TWO_32, n + 1)
  {
    WrapAdd32(n, 1);
  }

  lemma CountDown(length: uint32, n: nat)
    requires Counted(length, n) && n > 0
    ensures Counted((length - 1) % TWO_32, n - 1)
  {
  }

  class LinkedList {
    var head: Node?
    var tail: Node?
    var length: uint32
    ghost var nodes: seq<Node>

    /** ll_create */
    constructor ()
      ensures Valid() && nodes == []
    {
      head, tail, length, nodes := null, null, 0, [];
    }

    /** head and tail are the ends of nodes, next and prev its neighbours, and length
        counts it in 32 bits. */
    ghost predicate Valid()
      reads this, nodes
    {
      && head == At(nodes, 0)
      && tail == At(nodes, |nodes| - 1)
      && Counted(length, |nodes|)
      && Distinct(nodes) && Forward(nodes) && Backward(nodes)
    }

    ghost function Objects(): seq<object>
      reads this
    {
      var members := nodes;
      seq(|members|, i requires 0 <= i < |members| => members[i].obj)
    }

    /** The neighbours of the node at position k. */
    lemma Neighbours(k: nat)
      requires Valid() && k < |nodes|
      ensures nodes[k].next == At(nodes, k + 1) && nodes[k].prev == At(nodes, k - 1)
      ensures nodes[k] == head <==> k == 0
      ensures nodes[k] == tail <==> k == |nodes| - 1
    {
      hide Counted;
    }

    lemma Front()
      requires Valid()
      ensures head == At(nodes, 0)
    {
    }

    /** ll_add of an object. */
    method Append(o: object) returns (node: Node)
      requires Valid()
      modifies this, nodes
      ensures fresh(node) && node.obj == o
      ensures Valid() && nodes == old(nodes) + [node]
    {
      hide Counted, Forward, Backward, ForwardBut, BackwardBut, Distinct, Inserted;
      node := new Node(o);
      NothingSet(nodes);
      if head == null {
        head := node;
        tail := node;
      } else {
        SetNext(tail, node, nodes, |nodes| - 1);
        node.prev := tail;
        tail := node;
      }
      CountUp(length, |nodes|);
      length := (length + 1) % TWO_32;
      InsertedLast(nodes, node);
      hide At;
      EndsLast(nodes, node);
      DistinctInserted(nodes, |nodes|, node);
      SplicedForward(nodes, |nodes|, node);
      SplicedBackward(nodes, |nodes|, node);
      nodes := nodes + [node];
    }

    /** The pointers of ll_add_front. */
    method LinkFront(added: Node)
      requires Valid() && nodes != [] && added !in nodes && added.prev == null
      modifies added`next, nodes
      ensures BackwardBut(nodes, 0, added) && ForwardBut(nodes, -1, added)
      ensures added.next == At(nodes, 0) && added.prev == null
    {
      hide Counted, Forward, Backward, ForwardBut, BackwardBut, Distinct;
      added.next := head;
      SetPrev(head, added, nodes, 0);
      NothingSet(nodes);
    }

    /** ll_add_front of an object. */
    method Prepend(o: object) returns (node: Node)
      requires Valid()
      modifies this, nodes
      ensures fresh(node) && node.obj == o
      ensures Valid() && nodes == [node] + old(nodes)
    {
      hide Counted, Forward, Backward, ForwardBut, BackwardBut, Distinct, Inserted;
      node := new Node(o);
      NothingSet(nodes);
      if head == null {
        head := node;
        tail := node;
      } else {
        LinkFront(node);
        head := node;
      }
      CountUp(length, |nodes|);
      length := (length + 1) % TWO_32;
      InsertedFirst(nodes, node);
      hide At;
      EndsFirst(nodes, node);
      DistinctInserted(nodes, 0, node);
      SplicedForward(nodes, 0, node);
      SplicedBackward(nodes, 0, node);
      nodes := [node] + nodes;
    }

    /** The pointers of ll_add_after. */
    method LinkBehind(node: Node, added: Node, ghost k: nat)
      requires Valid() && k < |nodes| && nodes[k] == node && added !in nodes
      modifies added, nodes
      ensures ForwardBut(nodes, k, added) && BackwardBut(nodes, k + 1, added)
      ensures added.prev == node && added.next == At(nodes, k + 1)
    {
      hide Counted, Forward, Backward, ForwardBut, BackwardBut, Distinct;
      Neighbours(k);
      NothingSet(nodes);
      added.prev := node;
      added.next := node.next;
      if node.next != null { SetPrev(node.next, added, nodes, k + 1); }
      SetNext(node, added, nodes, k);
    }

    /** ll_add_after the node at position k. */
    method InsertAfter(node: Node, o: object, ghost k: nat) returns (added: Node)
      requires Valid() && k < |nodes| && nodes[k] == node
      modifies this, nodes
      ensures fresh(added) && added.obj == o
      ensures Valid() && nodes == old(nodes)[..k + 1] + [added] + old(nodes)[k + 1..]
    {
      hide Counted, Forward, Backward, ForwardBut, BackwardBut, Distinct, Inserted;
      added := new Node(o);
      Neighbours(k);
      LinkBehind(node, added, k);
      if node == tail { tail := added; }
      CountUp(length, |nodes|);
      length := (length + 1) % TWO_32;
      hide At;
      EndsInserted(nodes, k + 1, added);
      DistinctInserted(nodes, k + 1, added);
      SplicedForward(nodes, k + 1, added);
      SplicedBackward(nodes, k + 1, added);
      InsertedParts(nodes, k + 1, added);
      nodes := Inserted(nodes, k + 1, added);
    }

    /** The pointers of ll_remove. */
    method LinkAround(node: Node, ghost k: nat)
      requires Valid() && k < |nodes| && nodes[k] == node
      modifies this`head, this`tail, nodes
      ensures ForwardBut(nodes, k - 1, At(nodes, k + 1)) && BackwardBut(nodes, k + 1, At(nodes, k - 1))
      ensures head == (if k == 0 then At(nodes, 1) else old(head))
      ensures tail == (if k == |nodes| - 1 then At(nodes, k - 1) else old(tail))
    {
      hide Counted, Forward, Backward, ForwardBut, BackwardBut, Distinct;
      Neighbours(k);
      NothingSet(nodes);
      if node == head {
        head := node.next;
      } else {
        SetNext(node.prev, node.next, nodes, k - 1);
      }
      if node == tail {
        tail := node.prev;
      } else {
        SetPrev(node.next, node.prev, nodes, k + 1);
      }
    }

    /** ll_remove of the node at position k. */
    method Unlink(node: Node, ghost k: nat)
      requires Valid() && k < |nodes| && nodes[k] == node
      modifies this, nodes
      ensures Valid() && nodes == old(nodes)[..k] + old(nodes)[k + 1..]
    {
      hide Counted, Forward, Backward, ForwardBut, BackwardBut, Distinct;
      LinkAround(node, k);
      CountDown(length, |nodes|);
      length := (length - 1) % TWO_32;
      EndsWithout(nodes, k);
      DistinctWithout(nodes, k);
      CutForward(nodes, k);
      CutBackward(nodes, k);
      nodes := Without(nodes, k);
    }

    /** ll_find of an object: the first node that holds it. */
    method Search(o: object) returns (node: Node?)
      requires Valid()
      ensures node == null <==> o !in Objects()
      ensures node != null ==> exists k | 0 <= k < |nodes| :: nodes[k] == node && FirstAt(o, k)
    {
      var curr := head;
      ghost var k := 0;
      while curr != null
        invariant 0 <= k <= |nodes| && curr == At(nodes, k)
        invariant o !in Objects()[..k]
        decreases |nodes| - k
      {
        if curr.obj == o {
          assert Objects()[k] == o;
          return curr;
        }
        curr := curr.next;
        k := k + 1;
      }
      assert Objects()[..k] == Objects();
      return null;
    }

    ghost predicate FirstAt(o: object, k: nat)
      requires k < |nodes|
      reads this
    {
      Objects()[k] == o && o !in Objects()[..k]
    }
  }

  // ---------------------------------------------------------------- with the null tests

  ghost function Members(list: LinkedList?): seq<Node>
    reads list
  {
    if list == null then [] else list.nodes
  }

  /** The given list is null or well formed. */
  ghost predicate Usable(list: LinkedList?)
    reads list, Members(list)
  {
    list != null ==> list.Valid()
  }

  /** ll_add */
  method Add(list: LinkedList?, o: object?) returns (node: Node?)
    requires Usable(list)
    modifies list, Members(list)
    ensures Usable(list) && (node == null <==> list == null || o == null)
    ensures node == null ==> Members(list) == old(Members(list))
    ensures node != null ==> fresh(node) && node.obj == o && list.nodes == old(list.nodes) + [node]
  {
    if list == null || o == null { return null; }
    node := list.Append(o);
  }

  /** ll_add_front */
  method AddFront(list: LinkedList?, o: object?) returns (node: Node?)
    requires Usable(list)
    modifies list, Members(list)
    ensures Usable(list) && (node == null <==> list == null || o == null)
    ensures node == null ==> Members(list) == old(Members(list))
    ensures node != null ==> fresh(node) && node.obj == o && list.nodes == [node] + old(list.nodes)
  {
    if list == null || o == null { return null; }
    node := list.Prepend(o);
  }

  /** ll_add_after; k is the position of the given node. */
  method AddAfter(list: LinkedList?, node: Node?, o: object?, ghost k: nat) returns (added: Node?)
    requires Usable(list) && (list != null && node != null ==> k < |list.nodes| && list.nodes[k] == node)
    modifies list, Members(list)
    ensures Usable(list) && (added == null <==> list == null || node == null || o == null)
    ensures added == null ==> Members(list) == old(Members(list))
    ensures added != null ==>
              && fresh(added) && added.obj == o
              && list.nodes == old(list.nodes)[..k + 1] + [added] + old(list.nodes)[k + 1..]
  {
    if list == null || node == null || o == null { return null; }
    added := list.InsertAfter(node, o, k);
  }

  /** ll_remove; k is the position of the given node. */
  method Remove(list: LinkedList?, node: Node?, ghost k: nat) returns (o: object?)
    requires Usable(list) && (list != null && node != null ==> k < |list.nodes| && list.nodes[k] == node)
    modifies list, Members(list)
    ensures Usable(list) && (o == null <==> list == null || node == null)
    ensures o == null ==> Members(list) == old(Members(list))
    ensures o != null ==>
              o == node.obj == old(list.Objects())[k] && list.nodes == old(list.nodes)[..k] + old(list.nodes)[k + 1..]
  {
    if list == null || node == null { return null; }
    o := node.obj;
    list.Unlink(node, k);
  }

  /** ll_find */
  method Find(list: LinkedList?, o: object?) returns (node: Node?)
    requires Usable(list)
    ensures node == null <==> list == null || o == null || o !in list.Objects()
    ensures node != null ==> exists k | 0 <= k < |list.nodes| :: list.nodes[k] == node && list.FirstAt(o, k)
  {
    if list == null || o == null { return null; }
    node := list.Search(o);
  }
}
