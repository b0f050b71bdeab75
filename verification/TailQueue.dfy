/** The singly-linked tail queue of elf_queue.h (STAILQ_*).  The C head keeps
    a pointer to the last link; here `last` names the element that owns that
    link, and null stands for the head's own `first` field. */
module TailQueue {

  class Node<T> {
    const elem: T
    var next: Node?<T>

    constructor (e: T)
      ensures elem == e
    {
      elem := e;
      next := null;
    }
  }

  ghost predicate Distinct<T>(s: seq<T>) {
    forall i, j :: 0 <= i < j < |s| ==> s[i] != s[j]
  }

  lemma Regroup<T>(a: seq<T>, x: T, b: seq<T>)
    ensures a + ([x] + b) == a + [x] + b
  {
  }

  class Queue<T> {
    var first: Node?<T>
    var last: Node?<T>
    ghost var nodes: seq<Node<T>>

    /** The links spell out `nodes`, and `last` owns the final link. */
    ghost predicate Valid()
      reads this, nodes
    {
      && Distinct(nodes)
      && (if nodes == [] then first == null && last == null
          else && first == nodes[0]
               && last == nodes[|nodes| - 1]
               && last.next == null)
      && (forall i {:trigger nodes[i].next} :: 0 <= i < |nodes| - 1 ==> nodes[i].next == nodes[i + 1])
    }

    /** STAILQ_INIT */
    constructor ()
      ensures Valid() && nodes == []
    {
      first, last, nodes := null, null, [];
    }

    /** STAILQ_EMPTY */
    predicate Empty()
      reads this, nodes
      requires Valid()
      ensures Empty() <==> nodes == []
    {
      first == null
    }

    /** STAILQ_LAST */
    method Last() returns (n: Node?<T>)
      requires Valid()
      ensures n == if nodes == [] then null else nodes[|nodes| - 1]
    {
      n := if first == null then null else last;
    }

    /** STAILQ_FOREACH: the elements in list order. */
    method Elements() returns (s: seq<T>)
      requires Valid()
      ensures |s| == |nodes| && forall i :: 0 <= i < |nodes| ==> s[i] == nodes[i].elem
    {
      s := [];
      var n := first;
      while n != null
        invariant |s| <= |nodes| && n == if |s| < |nodes| then nodes[|s|] else null
        invariant forall i :: 0 <= i < |s| ==> s[i] == nodes[i].elem
        decreases |nodes| - |s|
      {
        s := s + [n.elem];
        n := n.next;
      }
    }

    /** STAILQ_INSERT_HEAD */
    method InsertHead(n: Node<T>)
      requires Valid() && n !in nodes
      modifies this, n
      ensures Valid() && nodes == [n] + old(nodes)
    {
      n.next := first;
      if n.next == null {
        last := n;
      }
      first := n;
      nodes := [n] + nodes;
    }

    /** STAILQ_INSERT_TAIL: stores through the last link, wherever that is. */
    method InsertTail(n: Node<T>)
      requires Valid() && n !in nodes
      modifies this, nodes, n
      ensures Valid() && nodes == old(nodes) + [n]
    {
      n.next := null;
      if last == null {
        first := n;
      } else {
        last.next := n;
      }
      last := n;
      nodes := nodes + [n];
    }

    /** STAILQ_INSERT_AFTER */
    method InsertAfter(t: Node<T>, n: Node<T>, ghost k: nat)
      requires Valid() && n !in nodes
      requires k < |nodes| && nodes[k] == t
      modifies this, t, n
      ensures Valid() && nodes == old(nodes)[..k + 1] + [n] + old(nodes)[k + 1..]
    {
      n.next := t.next;
      if n.next == null {
        last := n;
      }
      t.next := n;
      nodes := nodes[..k + 1] + [n] + nodes[k + 1..];
    }

    /** STAILQ_REMOVE_HEAD */
    method RemoveHead()
      requires Valid() && nodes != []
      modifies this
      ensures Valid() && nodes == old(nodes)[1..]
    {
      first := first.next;
      if first == null {
        last := null;
      }
      nodes := nodes[1..];
    }

    /** STAILQ_REMOVE: walks to the predecessor and unlinks. */
    method Remove(n: Node<T>, ghost k: nat)
      requires Valid() && k < |nodes| && nodes[k] == n
      modifies this, if k > 0 then {nodes[k - 1]} else {}
      ensures Valid() && nodes == old(nodes)[..k] + old(nodes)[k + 1..]
      ensures n.next == old(n.next)
    {
      if first == n {
        RemoveHead();
      } else {
        var cur := first;
        ghost var c := 0;
        while cur.next != n
          invariant 0 <= c < k && cur == nodes[c]
          decreases k - c
        {
          cur := cur.next;
          c := c + 1;
        }
        assert c == k - 1;
        cur.next := cur.next.next;
        if cur.next == null {
          last := cur;
        }
        nodes := nodes[..k] + nodes[k + 1..];
      }
    }

    /** STAILQ_CONCAT: splices the other queue on and leaves it empty. */
    method Concat(other: Queue<T>)
      requires Valid() && other.Valid() && other != this
      requires forall n :: n in nodes ==> n !in other.nodes
      modifies this, nodes, other
      ensures Valid() && nodes == old(nodes) + old(other.nodes)
      ensures other.Valid() && other.nodes == []
    {
      if other.first != null {
        assert forall j :: 0 <= j < |other.nodes| ==> other.nodes[j] in other.nodes;
        if last == null {
          first := other.first;
        } else {
          last.next := other.first;
        }
        last := other.last;
        nodes := nodes + other.nodes;
        other.first, other.last, other.nodes := null, null, [];
      }
    }

    /** The release loops of the library (STAILQ_FOREACH_SAFE around
        STAILQ_REMOVE and a free): every element is released exactly once, in
        list order, and the queue ends up empty, as _libelf_release_elf
        asserts. */
    method ReleaseAll() returns (freed: seq<Node<T>>)
      requires Valid()
      modifies this
      ensures Valid() && nodes == [] && Empty()
      ensures freed == old(nodes) && Distinct(freed)
    {
      freed := [];
      var n := first;
      while n != null
        invariant Valid()
        invariant old(nodes) == freed + nodes
        invariant n == first
        decreases |nodes|
      {
        var node: Node<T> := n;
        n := ReleaseFirst(node);
        Regroup(freed, node, nodes);
        freed := freed + [node];
      }
    }

    /** One round of such a loop: the successor is read before the removal. */
    method ReleaseFirst(n: Node<T>) returns (saved: Node?<T>)
      requires Valid() && n == first
      modifies this
      ensures Valid() && old(nodes) == [n] + nodes && saved == first
    {
      saved := n.next;
      assert |nodes| > 1 ==> nodes[0].next == nodes[1];
      Remove(n, 0);
    }
  }
}
