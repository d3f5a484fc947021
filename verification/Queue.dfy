/** queue.c: a queue over singly linked nodes with head, tail and size. */
module Queue {
  import opened Sequences

  class Node {
    var value: int
    var next: Node?

    constructor (value: int, next: Node?)
      ensures this.value == value && this.next == next
    {
      this.value, this.next := value, next;
    }
  }

  ghost function Values(ns: seq<Node>): seq<int>
    reads ns
  {
    seq(|ns|, i requires 0 <= i < |ns| reads ns => ns[i].value)
  }

  /** The first `i` nodes point backwards, the first of them nowhere. */
  ghost predicate Backward(ns: seq<Node>, i: int)
    requires 0 < i <= |ns|
    reads ns
  {
    ns[0].next == null && forall k, l :: 0 <= k && l == k + 1 && l < i ==> ns[l].next == ns[k]
  }

  /** The nodes from the i-th on point forwards, the last of them nowhere. */
  ghost predicate Forward(ns: seq<Node>, i: int)
    requires 0 <= i <= |ns|
    reads ns
  {
    && (i < |ns| ==> ns[|ns| - 1].next == null)
    && (forall k, l :: i <= k && l == k + 1 && l < |ns| ==> ns[k].next == ns[l])
  }

  /** Turned round, backward links are forward links. */
  lemma ReversedLinks(ns: seq<Node>)
    requires ns != [] && Distinct(ns) && Backward(ns, |ns|)
    ensures Distinct(Reverse(ns)) && Forward(Reverse(ns), 0)
  {
    var r := Reverse(ns);
    forall k, l | 0 <= k && l == k + 1 && l < |r|
      ensures r[k].next == r[l]
    {
      assert r[k] == ns[|ns| - 1 - k] && r[l] == ns[|ns| - 1 - l];
    }
  }

  lemma ReversedValues(ns: seq<Node>, vs: seq<int>)
    requires |vs| == |ns| && forall k :: 0 <= k < |ns| ==> ns[k].value == vs[k]
    ensures Values(Reverse(ns)) == Reverse(vs)
  {
  }

  class Queue {
    var head: Node?
    var tail: Node?
    var size: int
    ghost var nodes: seq<Node>
    ghost var freed: set<Node>

    /** The list from `head` is `nodes`, none of which was freed; when it is not empty `tail` is
        its last node. The tail of an empty queue is NULL or a freed node: q_remove_head leaves it behind. */
    ghost predicate Valid()
      reads this, nodes
    {
      && (forall n :: n in nodes ==> n !in freed)
      && (nodes == [] && tail != null ==> tail in freed)
      && Distinct(nodes) && size == |nodes|
      && head == (if nodes == [] then null else nodes[0])
      && (nodes != [] ==> tail == nodes[|nodes| - 1] && tail.next == null)
      && (forall i, j :: 0 <= i && j == i + 1 && j < |nodes| ==> nodes[i].next == nodes[j])
    }

    ghost function Contents(): seq<int>
      reads this, nodes
    {
      Values(nodes)
    }

    /** q_new */
    constructor ()
      ensures Valid() && nodes == [] && tail == null && freed == {}
    {
      head, tail, size := null, null, 0;
      nodes, freed := [], {};
    }

    /** q_insert_head, once its node has been allocated */
    method InsertHead(v: int)
      requires Valid()
      modifies this
      ensures Valid() && Contents() == [v] + old(Contents())
      ensures nodes[1..] == old(nodes) && fresh(nodes[0]) && freed == old(freed)
    {
      var n := new Node(v, head);
      head := n;
      if size == 0 {
        tail := n;
      }
      size := size + 1;
      nodes := [n] + nodes;
    }

    /** q_insert_tail, once its node has been allocated: it appends exactly when the
        queue is not empty or its tail is NULL; otherwise it stores into a freed node,
        and the element is counted but lost. */
    method InsertTail(v: int)
      requires Valid()
      modifies this, if tail == null then {} else {tail}
      ensures size == old(size) + 1 && tail != null && fresh(tail) && freed == old(freed)
      ensures old(tail) != null ==> old(tail).next == tail
      ensures old(tail) != null && old(tail) in freed <==> old(head) == null && old(tail) != null
      ensures old(head) != null || old(tail) == null ==> Valid() && Contents() == old(Contents()) + [v]
      ensures old(head) == null && old(tail) != null ==> head == null && !Valid()
    {
      var n := new Node(v, null);
      ghost var appended := nodes != [] || tail == null;
      if tail == null {
        head := n;
        tail := n;
      } else {
        tail.next := n;
        tail := n;
      }
      size := size + 1;
      if appended {
        nodes := nodes + [n];
      }
    }

    /** q_remove_head; the removed node is freed. */
    method RemoveHead() returns (ok: bool, v: int)
      requires Valid()
      modifies this
      ensures Valid() && ok == (old(nodes) != [])
      ensures ok ==> [v] + Contents() == old(Contents()) && nodes == old(nodes)[1..]
      ensures ok ==> freed == old(freed) + {old(nodes)[0]}
      ensures !ok ==> nodes == old(nodes) && freed == old(freed)
      ensures tail == old(tail)
    {
      if head == null {
        return false, 0;
      }
      v := head.value;
      ghost var removed := nodes[0];
      head := head.next;
      size := size - 1;
      nodes, freed := nodes[1..], freed + {removed};
      ok := true;
    }

    /** The pointer loop of q_reverse, on a list of at least two nodes. */
    method Turn(ghost ns: seq<Node>)
      requires Distinct(ns) && Forward(ns, 0) && |ns| >= 2 && head == ns[0]
      modifies ns
      ensures Backward(ns, |ns|)
      ensures forall k :: 0 <= k < |ns| ==> ns[k].value == old(ns[k].value)
    {
      assert ns[0].next == ns[1];
      var a: Node, b: Node, c: Node? := head, head.next, head.next.next;
      b.next := a;
      a.next := null;
      ghost var i := 2;
      while c != null
        invariant 2 <= i <= |ns| && b == ns[i - 1]
        invariant c == if i < |ns| then ns[i] else null
        invariant Backward(ns, i) && Forward(ns, i)
        invariant forall k :: 0 <= k < |ns| ==> ns[k].value == old(ns[k].value)
        modifies ns
        decreases |ns| - i
      {
        a := b;
        b := c;
        c := c.next;
        b.next := a;
        i := i + 1;
      }
    }

    lemma Fold()
      requires Distinct(nodes) && Forward(nodes, 0) && size == |nodes| && nodes != []
      requires forall n :: n in nodes ==> n !in freed
      requires head == nodes[0] && tail == nodes[|nodes| - 1]
      ensures Valid()
    {
    }

    lemma Unfold()
      requires Valid()
      ensures Distinct(nodes) && Forward(nodes, 0) && size == |nodes|
      ensures nodes == [] <==> head == null
      ensures forall n :: n in nodes ==> n !in freed
      ensures nodes != [] ==> head == nodes[0] && tail == nodes[|nodes| - 1]
      ensures |nodes| > 1 ==> head.next == nodes[1]
      ensures |nodes| == 1 ==> head.next == null
    {
    }

    /** q_reverse: the same nodes, linked the other way round. */
    method ReverseInPlace()
      requires Valid()
      modifies this, nodes
      ensures Valid() && nodes == Reverse(old(nodes)) && freed == old(freed)
      ensures Contents() == Reverse(old(Contents()))
    {
      hide *;
      Unfold();
      ghost var ns, vs := nodes, Contents();
      ContentsAre();
      if head == null || head.next == null {
        ReverseShort(ns);
        ReverseShort(vs);
        return;
      }
      var oldHead, oldTail := head, tail;
      Turn(ns);
      ReversedLinks(ns);
      ReversedValues(ns, vs);
      ReverseMembers(ns);
      head := oldTail;
      tail := oldHead;
      nodes := Reverse(ns);
      Fold();
      ContentsAre();
    }

    lemma ContentsAre()
      ensures Contents() == Values(nodes) && |Contents()| == |nodes|
      ensures forall k :: 0 <= k < |nodes| ==> nodes[k].value == Contents()[k]
    {
    }
  }

  lemma ReverseShort<T>(s: seq<T>)
    requires |s| <= 1
    ensures Reverse(s) == s
  {
  }

  /** Reversing twice restores nodes and contents. */
  method ReverseBack(q: Queue)
    requires q.Valid()
    modifies q, q.nodes
    ensures q.Valid() && q.nodes == old(q.nodes) && q.Contents() == old(q.Contents())
  {
    hide *;
    ReverseTwice(q.nodes);
    ReverseTwice(q.Contents());
    ReverseMembers(q.nodes);
    q.ReverseInPlace();
    q.ReverseInPlace();
  }

  /** The sequence of calls on which q_insert_tail loses an element. */
  method LoseElement() returns (q: Queue)
    ensures q.head == null && q.size == 1 && !q.Valid() && q.freed != {}
  {
    q := new Queue();
    q.InsertTail(1);
    var ok, v := q.RemoveHead();
    q.InsertTail(2);
  }
}
