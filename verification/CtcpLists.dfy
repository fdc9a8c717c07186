/** The two segment lists of a connection in lab3/ctcp.c, unacked_segs_with_info and
    segs_to_send, as doubly linked lists of wrappers that are updated in place. */
module CtcpLists {
  import opened Machine
  import opened Ctcp
  import opened DoublyLinkedList

  /** ctcp_segment_with_info_t without the app-limited mark. */
  class SegWrapper {
    const seg: Segment
    var prevSent: int
    var retransmits: nat
    var inFlight: bool

    constructor (s: Segment)
      ensures seg == s && prevSent == 0 && retransmits == 0 && !inFlight
    {
      seg, prevSent, retransmits, inFlight := s, 0, 0, false;
    }

    function Info(): SegInfo
      reads this
    {
      SegInfo(seg, prevSent, retransmits, inFlight)
    }
  }

  lemma SegOf(w: SegWrapper)
    ensures w.Info().seg == w.seg
  {
  }

  ghost function Infos(ws: seq<SegWrapper>): (infos: seq<SegInfo>)
    reads ws
    ensures |infos| == |ws|
  {
    seq(|ws|, i requires 0 <= i < |ws| reads ws => ws[i].Info())
  }

  lemma InfosAppend(ws: seq<SegWrapper>, w: SegWrapper)
    ensures Infos(ws + [w]) == Infos(ws) + [w.Info()]
  {
  }

  lemma InfosTail(ws: seq<SegWrapper>)
    requires ws != []
    ensures Infos(ws) == [ws[0].Info()] + Infos(ws[1..]) && Infos(ws)[1..] == Infos(ws[1..])
  {
  }

  /** w is the k-th wrapper of a and nowhere else in a or b. */
  ghost predicate Once(w: SegWrapper, a: seq<SegWrapper>, b: seq<SegWrapper>, k: nat) {
    && k < |a| && a[k] == w
    && (forall i | 0 <= i < |a| && i != k :: a[i] != w)
    && forall i | 0 <= i < |b| :: b[i] != w
  }

  /** The fields that ctcp_send_sliding_window sets. */
  method SetSent(w: SegWrapper, stamp: int, ghost a: seq<SegWrapper>, ghost b: seq<SegWrapper>, ghost k: nat)
    requires Once(w, a, b, k)
    modifies w
    ensures Infos(a) == old(Infos(a))[k := old(w.Info()).(prevSent := stamp, inFlight := true)]
    ensures Infos(b) == old(Infos(b))
  {
    w.prevSent, w.inFlight := stamp, true;
  }

  /** The fields that ctcp_timer sets. */
  method SetResent(w: SegWrapper, stamp: int, ghost a: seq<SegWrapper>, ghost b: seq<SegWrapper>, ghost k: nat)
    requires Once(w, a, b, k)
    modifies w
    ensures Infos(a) == old(Infos(a))[k := old(w.Info()).(prevSent := stamp, retransmits := old(w.retransmits) + 1)]
    ensures Infos(b) == old(Infos(b))
  {
    w.prevSent, w.retransmits := stamp, w.retransmits + 1;
  }

  // ---------------------------------------------------------------- ownership

  ghost predicate Apart(s: seq<object>) {
    forall i, j | 0 <= i < j < |s| :: s[i] != s[j]
  }

  ghost predicate Disjoint(a: seq<object>, b: seq<object>) {
    forall i, j | 0 <= i < |a| && 0 <= j < |b| :: a[i] != b[j]
  }

  ghost predicate Within(s: seq<object>, repr: set<object>) {
    forall i | 0 <= i < |s| :: s[i] in repr
  }

  lemma TailOwned(a: seq<object>, b: seq<object>, repr: set<object>)
    requires a != [] && Within(a, repr)
    ensures Within(a[1..], repr)
    ensures Disjoint(a, b) ==> Disjoint(a[1..], b)
    ensures Disjoint(b, a) ==> Disjoint(b, a[1..])
  {
  }

  lemma FirstLeaves(a: seq<object>, b: seq<object>)
    requires a != [] && Apart(a + b)
    ensures Apart(a[1..] + b)
  {
    assert a[1..] + b == (a + b)[1..];
  }

  lemma NewApart(a: seq<object>, b: seq<object>, x: object)
    requires Apart(a + b) && x !in a && x !in b
    ensures Apart(a + (b + [x]))
  {
    assert a + (b + [x]) == (a + b) + [x];
  }

  lemma Moved(a: seq<object>, b: seq<object>)
    requires b != []
    ensures (a + [b[0]]) + b[1..] == a + b
  {
  }

  lemma OnlyThere(a: seq<SegWrapper>, b: seq<SegWrapper>, k: nat)
    requires Apart(a + b) && k < |a|
    ensures Once(a[k], a, b, k)
  {
    assert forall i | 0 <= i < |b| :: b[i] == (a + b)[|a| + i];
    assert forall i | 0 <= i < |a| :: a[i] == (a + b)[i];
  }

  // ---------------------------------------------------------------- one list

  /** The list holds these wrappers in this order. */
  ghost predicate Holds(list: LinkedList, ws: seq<SegWrapper>)
    reads list, list.nodes
  {
    list.Valid() && |list.nodes| == |ws| && forall i | 0 <= i < |ws| :: list.nodes[i].obj == ws[i]
  }

  /** ll_add */
  method AddLast(list: LinkedList, w: SegWrapper, ghost ws: seq<SegWrapper>) returns (ghost node: Node)
    requires Holds(list, ws)
    modifies list, list.nodes
    ensures fresh(node) && list.nodes == old(list.nodes) + [node] && Holds(list, ws + [w])
  {
    hide LinkedList.Valid;
    node := list.Append(w);
  }

  /** ll_front */
  method First(list: LinkedList, ghost ws: seq<SegWrapper>) returns (node: Node?)
    requires Holds(list, ws)
    ensures node == At(list.nodes, 0)
  {
    hide LinkedList.Valid;
    list.Front();
    node := list.head;
  }

  /** ll_remove of the first node. */
  method RemoveFirst(list: LinkedList, ghost ws: seq<SegWrapper>)
    requires Holds(list, ws) && ws != []
    modifies list, list.nodes
    ensures list.nodes == old(list.nodes)[1..] && Holds(list, ws[1..])
  {
    hide LinkedList.Valid;
    list.Front();
    list.Unlink(list.head, 0);
  }

  // ---------------------------------------------------------------- both lists

  class SegLists {
    const unackedSegs: LinkedList
    const segsToSend: LinkedList
    ghost var sent: seq<SegWrapper>
    ghost var waiting: seq<SegWrapper>
    ghost var unacked: seq<SegInfo>
    ghost var toSend: seq<SegInfo>
    ghost var repr: set<object>

    /** The lists share no node and hold sent and waiting. */
    ghost predicate Linked()
      reads this`sent, this`waiting, this`repr, unackedSegs, segsToSend, unackedSegs.nodes, segsToSend.nodes
    {
      && this !in repr && unackedSegs in repr && segsToSend in repr && unackedSegs != segsToSend
      && Within(unackedSegs.nodes, repr) && Within(segsToSend.nodes, repr)
      && Disjoint(unackedSegs.nodes, segsToSend.nodes)
      && Within(sent, repr) && Within(waiting, repr)
      && Holds(unackedSegs, sent) && Holds(segsToSend, waiting)
    }

    /** No wrapper is held twice, and unacked and toSend are the contents. */
    ghost predicate Valid()
      reads this, repr, unackedSegs, segsToSend, unackedSegs.nodes, segsToSend.nodes, sent, waiting
    {
      && Linked() && Apart(sent + waiting)
      && unacked == Infos(sent) && toSend == Infos(waiting)
    }

    /** Two ll_create */
    constructor ()
      ensures Valid() && fresh(repr) && unacked == [] && toSend == []
    {
      var a := new LinkedList();
      var b := new LinkedList();
      unackedSegs, segsToSend := a, b;
      sent, waiting, unacked, toSend, repr := [], [], [], [], {a, b};
    }

    lemma Sizes()
      requires Linked()
      ensures |unackedSegs.nodes| == |sent| && |segsToSend.nodes| == |waiting|
    {
    }

    method LinkSent(w: SegWrapper)
      requires Linked() && w in repr
      modifies this`sent, this`repr, unackedSegs, unackedSegs.nodes
      ensures Linked() && sent == old(sent) + [w] && repr >= old(repr) && fresh(repr - old(repr))
      ensures old(unackedSegs.nodes) <= unackedSegs.nodes
    {
      hide Holds;
      ghost var node := AddLast(unackedSegs, w, sent);
      sent, repr := sent + [w], repr + {node};
    }

    method LinkWaiting(w: SegWrapper)
      requires Linked() && w in repr
      modifies this`waiting, this`repr, segsToSend, segsToSend.nodes
      ensures Linked() && waiting == old(waiting) + [w] && repr >= old(repr) && fresh(repr - old(repr))
    {
      hide Holds;
      ghost var node := AddLast(segsToSend, w, waiting);
      waiting, repr := waiting + [w], repr + {node};
    }

    method UnlinkSent()
      requires Linked() && sent != []
      modifies this`sent, unackedSegs, unackedSegs.nodes
      ensures Linked() && sent == old(sent)[1..]
      ensures old(unackedSegs.nodes) != [] && unackedSegs.nodes == old(unackedSegs.nodes)[1..]
    {
      Sizes();
      hide Holds;
      TailOwned(unackedSegs.nodes, segsToSend.nodes, repr);
      RemoveFirst(unackedSegs, sent);
      sent := sent[1..];
    }

    method UnlinkWaiting()
      requires Linked() && waiting != []
      modifies this`waiting, segsToSend, segsToSend.nodes
      ensures Linked() && waiting == old(waiting)[1..] && unackedSegs.nodes == old(unackedSegs.nodes)
    {
      Sizes();
      hide Holds;
      TailOwned(segsToSend.nodes, unackedSegs.nodes, repr);
      RemoveFirst(segsToSend, waiting);
      waiting := waiting[1..];
    }

    method FirstWaiting() returns (w: SegWrapper)
      requires Linked() && waiting != []
      ensures w == waiting[0] && w in repr
    {
      hide Disjoint;
      var node := First(segsToSend, waiting);
      w := node.obj as SegWrapper;
    }

    lemma Parts()
      requires Valid()
      ensures Linked() && Apart(sent + waiting) && unacked == Infos(sent) && toSend == Infos(waiting)
      ensures this !in repr && unackedSegs in repr && segsToSend in repr && |unacked| == |sent| && |toSend| == |waiting|
      ensures forall n | n in unackedSegs.nodes :: n in repr
      ensures forall n | n in segsToSend.nodes :: n in repr
    {
    }

    lemma Together()
      requires Linked() && Apart(sent + waiting) && unacked == Infos(sent) && toSend == Infos(waiting)
      ensures Valid()
    {
    }

    /** A new wrapper is owned before it is linked. */
    method Create(seg: Segment) returns (w: SegWrapper)
      requires Valid()
      modifies this`repr
      ensures fresh(w) && w.Info() == SegInfo(seg, 0, 0, false) && repr == old(repr) + {w}
      ensures Valid() && w !in sent && w !in waiting
    {
      w := new SegWrapper(seg);
      Parts();
      hide Infos, Holds;
      repr := repr + {w};
      assert Linked();
      Together();
    }

    /** The end of ctcp_prep_data_segment: a new wrapper joins segs_to_send. */
    method Wait(seg: Segment)
      requires Valid()
      modifies this`waiting, this`toSend, this`repr, repr
      ensures Valid() && fresh(repr - old(repr))
      ensures unacked == old(unacked) && toSend == old(toSend) + [SegInfo(seg, 0, 0, false)]
    {
      hide *;
      var w := Create(seg);
      Parts();
      InfosAppend(waiting, w);
      NewApart(sent, waiting, w);
      LinkWaiting(w);
      toSend := toSend + [w.Info()];
      Together();
    }

    /** ll_add of the first waiting wrapper to the unacked list, then ll_remove of its node. */
    method MoveFirst() returns (seg: Segment)
      requires Valid() && toSend != []
      modifies this`sent, this`waiting, this`unacked, this`toSend, this`repr, repr
      ensures Valid() && fresh(repr - old(repr)) && old(unackedSegs.nodes) <= unackedSegs.nodes
      ensures unacked == old(unacked) + [old(toSend)[0]] && toSend == old(toSend)[1..] && seg == old(toSend)[0].seg
    {
      hide *;
      Parts();
      InfosTail(waiting);
      InfosAppend(sent, waiting[0]);
      SegOf(waiting[0]);
      Moved(sent, waiting);
      var w := FirstWaiting();
      LinkSent(w);
      UnlinkWaiting();
      unacked, toSend := unacked + [toSend[0]], toSend[1..];
      Together();
      seg := w.seg;
    }

    /** ll_remove of the first unacknowledged segment. */
    method DropFirst()
      requires Valid() && unacked != []
      modifies this`sent, this`unacked, repr
      ensures Valid() && unacked == old(unacked)[1..] && toSend == old(toSend) && repr == old(repr)
      ensures old(unackedSegs.nodes) != [] && unackedSegs.nodes == old(unackedSegs.nodes)[1..]
    {
      hide *;
      Parts();
      InfosTail(sent);
      FirstLeaves(sent, waiting);
      UnlinkSent();
      unacked := unacked[1..];
      Together();
    }

    /** The node at position k of the unacked list, null behind the last. */
    ghost function SentNode(k: nat): Node?
      reads unackedSegs
    {
      At(unackedSegs.nodes, k)
    }

    lemma AtWrapper(k: nat)
      requires Valid() && k < |unacked|
      ensures var node := SentNode(k);
              && node != null && node.obj is SegWrapper && node.obj in repr && k < |sent| && node.obj == sent[k]
              && sent[k].Info() == unacked[k] && sent[k].retransmits == unacked[k].retransmits
    {
    }

    /** node->next for the node at position k. */
    method NextOf(node: Node, ghost k: nat) returns (next: Node?)
      requires Valid() && k < |unacked| && node == SentNode(k)
      ensures next == SentNode(k + 1) && (next == null <==> k + 1 == |unacked|)
    {
      hide Infos, Within, Disjoint, Apart;
      unackedSegs.Neighbours(k);
      next := node.next;
    }

    /** ll_front of the unacked list. */
    method FirstSent() returns (node: Node?)
      requires Valid()
      ensures node == SentNode(0) && (node == null <==> unacked == [])
    {
      Parts();
      Sizes();
      hide Infos, Within, Disjoint, Apart;
      node := First(unackedSegs, sent);
    }

    /** ll_front of the waiting list. */
    method FirstToSend() returns (node: Node?)
      requires Valid()
      ensures node == null <==> toSend == []
    {
      Parts();
      Sizes();
      hide Infos, Within, Disjoint, Apart;
      node := First(segsToSend, waiting);
    }

    /** What the node at position k holds. */
    method InfoOf(node: Node, ghost k: nat) returns (s: SegInfo)
      requires Valid() && k < |unacked| && node == SentNode(k)
      ensures s == unacked[k]
    {
      hide *;
      var w := WrapperOf(node, k);
      s := w.Info();
    }

    /** The object of a node of the unacked list. */
    method WrapperOf(node: Node, ghost k: nat) returns (w: SegWrapper)
      requires Valid() && k < |unacked| && node == SentNode(k)
      ensures k < |sent| && w == sent[k] && w in repr
      ensures w.Info() == unacked[k] && w.retransmits == unacked[k].retransmits
    {
      hide *;
      AtWrapper(k);
      w := node.obj as SegWrapper;
    }

    /** The fields that the window sender sets. */
    method MarkSent(node: Node, ghost k: nat, stamp: int)
      requires Valid() && k < |unacked| && node == SentNode(k)
      modifies this`unacked, repr
      ensures Valid() && unacked == old(unacked)[k := old(unacked)[k].(prevSent := stamp, inFlight := true)]
      ensures toSend == old(toSend) && unackedSegs.nodes == old(unackedSegs.nodes) && repr == old(repr)
    {
      hide *;
      var w := WrapperOf(node, k);
      Parts();
      OnlyThere(sent, waiting, k);
      SetSent(w, stamp, sent, waiting, k);
      unacked := unacked[k := unacked[k].(prevSent := stamp, inFlight := true)];
      Together();
    }

    /** The fields that the timer sets. */
    method MarkResent(node: Node, ghost k: nat, stamp: int)
      requires Valid() && k < |unacked| && node == SentNode(k)
      modifies this`unacked, repr
      ensures Valid()
      ensures var s := old(unacked)[k];
              unacked == old(unacked)[k := s.(prevSent := stamp, retransmits := s.retransmits + 1)]
      ensures toSend == old(toSend) && unackedSegs.nodes == old(unackedSegs.nodes) && repr == old(repr)
    {
      hide *;
      var w := WrapperOf(node, k);
      Parts();
      OnlyThere(sent, waiting, k);
      SetResent(w, stamp, sent, waiting, k);
      unacked := unacked[k := unacked[k].(prevSent := stamp, retransmits := unacked[k].retransmits + 1)];
      Together();
    }
  }
}
