/** Circular queues: the CIRCLEQ macros over heap cells.

    CIRCLEQ_END(head) is the address of the head itself, so the head and the entries are one class whose
    two words are cqh_first/cqh_last on the head and cqe_next/cqe_prev on an entry. */
module CircleQueues {
  import opened TailQueues

  class Node {
    var next: Node?  // cqh_first or cqe_next
    var prev: Node?  // cqh_last or cqe_prev

    constructor ()
      ensures next == null && prev == null
    {
      next, prev := null, null;
    }
  }

  ghost predicate Different(ring: seq<Node>) {
    forall i, j :: 0 <= i < j < |ring| ==> ring[i] != ring[j]
  }

  /** Each node's next is its successor and each node's prev is its predecessor, around through ring[0]. */
  ghost predicate Ring(ring: seq<Node>)
    reads ring
  {
    && |ring| > 0
    && Different(ring)
    && (forall i {:trigger ring[i].next} :: 0 <= i < |ring| - 1 ==> ring[i].next == ring[i + 1])
    && (forall i {:trigger ring[i].prev} :: 1 <= i < |ring| ==> ring[i].prev == ring[i - 1])
    && ring[|ring| - 1].next == ring[0]
    && ring[0].prev == ring[|ring| - 1]
  }

  class CircleQueue {
    const head: Node
    ghost var ring: seq<Node>  // the head, then the elements

    ghost predicate Valid()
      reads this, ring
    {
      Ring(ring) && ring[0] == head
    }

    ghost function Cells(): set<Node>
      reads this
    {
      set e | e in ring
    }

    // CIRCLEQ_INIT
    constructor ()
      ensures Valid() && ring == [head] && fresh(head)
    {
      head := new Node();
      new;
      ring := [head];
      head.next := head;
      head.prev := head;
    }

    method InsertAfter(listelm: Node, elm: Node, ghost k: nat)
      requires Valid() && elm !in ring
      requires 1 <= k < |ring| && ring[k] == listelm
      modifies this, Cells(), elm
      ensures Valid() && ring == Inserted(old(ring), k + 1, elm)
    {
      elm.next := listelm.next;
      elm.prev := listelm;
      if listelm.next == head {
        head.prev := elm;
      } else {
        listelm.next.prev := elm;
      }
      listelm.next := elm;
      ring := Inserted(ring, k + 1, elm);
    }

    method InsertBefore(listelm: Node, elm: Node, ghost k: nat)
      requires Valid() && elm !in ring
      requires 1 <= k < |ring| && ring[k] == listelm
      modifies this, Cells(), elm
      ensures Valid() && ring == Inserted(old(ring), k, elm)
    {
      elm.next := listelm;
      elm.prev := listelm.prev;
      if listelm.prev == head {
        head.next := elm;
      } else {
        listelm.prev.next := elm;
      }
      listelm.prev := elm;
      ring := Inserted(ring, k, elm);
    }

    method InsertHead(elm: Node)
      requires Valid() && elm !in ring
      modifies this, Cells(), elm
      ensures Valid() && ring == Inserted(old(ring), 1, elm)
    {
      elm.next := head.next;
      elm.prev := head;
      if head.prev == head {
        head.prev := elm;
      } else {
        head.next.prev := elm;
      }
      head.next := elm;
      ring := Inserted(ring, 1, elm);
    }

    method InsertTail(elm: Node)
      requires Valid() && elm !in ring
      modifies this, Cells(), elm
      ensures Valid() && ring == Inserted(old(ring), |old(ring)|, elm)
    {
      elm.next := head;
      elm.prev := head.prev;
      if head.next == head {
        head.next := elm;
      } else {
        head.prev.next := elm;
      }
      head.prev := elm;
      ring := Inserted(ring, |ring|, elm);
    }

    method Remove(elm: Node, ghost k: nat)
      requires Valid()
      requires 1 <= k < |ring| && ring[k] == elm
      modifies this, Cells()
      ensures Valid() && ring == Removed(old(ring), k)
    {
      if elm.next == head {
        head.prev := elm.prev;
      } else {
        elm.next.prev := elm.prev;
      }
      if elm.prev == head {
        head.next := elm.next;
      } else {
        elm.prev.next := elm.next;
      }
      ring := Removed(ring, k);
    }

    // CIRCLEQ_FOREACH
    method Forward() returns (visited: seq<Node>)
      requires Valid()
      ensures visited == ring[1..]
    {
      visited := [];
      var elm := head.next;
      while elm != head
        invariant |visited| < |ring| && visited == ring[1..|visited| + 1]
        invariant elm == ring[|visited|].next
        decreases |ring| - |visited|
      {
        visited := visited + [elm];
        elm := elm.next;
      }
    }

    // CIRCLEQ_FOREACH_REVERSE
    method Backward() returns (visited: seq<Node>)
      requires Valid()
      ensures visited == Reversed(ring[1..])
    {
      visited := [];
      var elm := head.prev;
      ghost var left := |ring| - 1;
      while elm != head
        invariant 0 <= left < |ring| && |visited| == |ring| - 1 - left
        invariant forall i :: 0 <= i < |visited| ==> visited[i] == ring[|ring| - 1 - i]
        invariant elm == ring[left]
        decreases left
      {
        visited := visited + [elm];
        left := left - 1;
        elm := elm.prev;
      }
    }
  }
}
