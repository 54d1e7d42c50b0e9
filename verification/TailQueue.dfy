/** Tail queues: the TAILQ macros over heap cells.

    A head {tqh_first, tqh_last} and an entry {tqe_next, tqe_prev} have the same layout: a pointer to
    an element and the address of a pointer to an element.  Both are therefore one class, Link, and
    the address of a link's first word is the Link itself.  The casts inside TAILQ_LAST and TAILQ_PREV,
    which read an entry as if it were a head, are then ordinary field reads. */
module TailQueues {

  class Link<T> {
    var first: Elem?<T>  // tqh_first or tqe_next
    var last: Link?<T>   // tqh_last or tqe_prev: the link whose first word is addressed

    constructor ()
      ensures first == null && last == null
    {
      first, last := null, null;
    }
  }

  class Elem<T> {
    const field: Link<T>  // the embedded TAILQ_ENTRY
    const value: T

    constructor (value: T)
      ensures this.value == value && fresh(field)
    {
      field := new Link();
      this.value := value;
    }
  }

  ghost function ValuesOf<T>(s: seq<Elem<T>>): (r: seq<T>)
    ensures |r| == |s|
  {
    seq(|s|, i requires 0 <= i < |s| => s[i].value)
  }

  lemma ValuesAppend<T>(s: seq<Elem<T>>, e: Elem<T>)
    ensures ValuesOf(s + [e]) == ValuesOf(s) + [e.value]
  {
  }

  function Reversed<T>(s: seq<T>): (r: seq<T>)
    ensures |r| == |s| && forall i :: 0 <= i < |s| ==> r[i] == s[|s| - 1 - i]
  {
    if s == [] then [] else Reversed(s[1..]) + [s[0]]
  }

  function Inserted<T>(s: seq<T>, k: nat, x: T): (r: seq<T>)
    requires k <= |s|
    ensures |r| == |s| + 1 && r[k] == x
    ensures forall i :: 0 <= i < k ==> r[i] == s[i]
    ensures forall i :: k < i < |r| ==> r[i] == s[i - 1]
  {
    s[..k] + [x] + s[k..]
  }

  function Removed<T>(s: seq<T>, k: nat): (r: seq<T>)
    requires k < |s|
    ensures |r| == |s| - 1
    ensures forall i :: 0 <= i < k ==> r[i] == s[i]
    ensures forall i :: k <= i < |r| ==> r[i] == s[i + 1]
  {
    s[..k] + s[k + 1..]
  }

  lemma MovedOver<T>(done: seq<T>, rest: seq<T>)
    requires rest != []
    ensures done + [rest[0]] + Removed(rest, 0) == done + rest
  {
    assert rest == [rest[0]] + Removed(rest, 0);
  }

  /** Links that are pairwise different cells. */
  ghost predicate Distinct<T>(links: seq<Link<T>>) {
    forall i, j :: 0 <= i < j < |links| ==> links[i] != links[j]
  }

  /** links is the head followed by the entries of s.  Following the pointers from the head visits exactly
      s, every back pointer addresses the link that points at its element, and the head's back pointer
      addresses the link that holds the final NULL. */
  ghost predicate Linked<T>(links: seq<Link<T>>, s: seq<Elem<T>>)
    reads links
  {
    && |links| == |s| + 1
    && Distinct(links)
    && (forall i {:trigger s[i].field} :: 0 <= i < |s| ==> s[i].field == links[i + 1])
    && (forall i {:trigger links[i].first} :: 0 <= i < |s| ==> links[i].first == s[i])
    && links[|s|].first == null
    && (forall i {:trigger links[i].last} :: 1 <= i <= |s| ==> links[i].last == links[i - 1])
    && links[0].last == links[|s|]
  }

  /** The heap determines the sequence: one head cannot carry two readings. */
  lemma {:induction false} LinkedDetermines<T>(ls: seq<Link<T>>, s: seq<Elem<T>>, lt: seq<Link<T>>, t: seq<Elem<T>>)
    requires Linked(ls, s) && Linked(lt, t) && ls[0] == lt[0]
    ensures s == t
  {
    var i := 0;
    while i < |s| && i < |t|
      invariant i <= |s| && i <= |t|
      invariant s[..i] == t[..i]
      invariant ls[i] == lt[i]
    {
      assert ls[i].first == s[i] && lt[i].first == t[i];
      assert s[i].field == ls[i + 1] && t[i].field == lt[i + 1];
      i := i + 1;
    }
  }

  /** No element is in a queue twice. */
  lemma LinkedIsDistinct<T>(links: seq<Link<T>>, s: seq<Elem<T>>, i: nat, j: nat)
    requires Linked(links, s) && i < j < |s|
    ensures s[i] != s[j]
  {
    assert s[i].field == links[i + 1] && s[j].field == links[j + 1];
  }

  class TailQueue<T> {
    const head: Link<T>
    ghost var elems: seq<Elem<T>>
    ghost var links: seq<Link<T>>

    ghost predicate Valid()
      reads this, links
    {
      Linked(links, elems) && links[0] == head
    }

    /** The head and the entries: every cell the macros may write, besides that of a new element. */
    ghost function Cells(): set<Link<T>>
      reads this
    {
      set l | l in links
    }

    // TAILQ_INIT
    constructor ()
      ensures Valid() && elems == [] && fresh(head)
    {
      head := new Link();
      new;
      elems, links := [], [head];
      head.first := null;
      head.last := head;
    }

    method InsertHead(elm: Elem<T>)
      requires Valid() && elm.field !in links
      modifies this, Cells(), elm.field
      ensures Valid() && elems == [elm] + old(elems)
    {
      elm.field.first := head.first;
      if elm.field.first != null {
        head.first.field.last := elm.field;
      } else {
        head.last := elm.field;
      }
      head.first := elm;
      elm.field.last := head;
      elems, links := [elm] + elems, [head, elm.field] + links[1..];
    }

    method InsertTail(elm: Elem<T>)
      requires Valid() && elm.field !in links
      modifies this, Cells(), elm.field
      ensures Valid() && elems == old(elems) + [elm]
      ensures links == old(links) + [elm.field]
    {
      elm.field.first := null;
      elm.field.last := head.last;
      head.last.first := elm;
      head.last := elm.field;
      elems, links := elems + [elm], links + [elm.field];
    }

    method InsertAfter(listelm: Elem<T>, elm: Elem<T>, ghost k: nat)
      requires Valid() && elm.field !in links
      requires k < |elems| && elems[k] == listelm
      modifies this, Cells(), elm.field
      ensures Valid() && elems == Inserted(old(elems), k + 1, elm)
    {
      assert listelm.field == links[k + 1];
      elm.field.first := listelm.field.first;
      if elm.field.first != null {
        elm.field.first.field.last := elm.field;
      } else {
        head.last := elm.field;
      }
      listelm.field.first := elm;
      elm.field.last := listelm.field;
      elems := Inserted(elems, k + 1, elm);
      links := Inserted(links, k + 2, elm.field);
    }

    method InsertBefore(listelm: Elem<T>, elm: Elem<T>, ghost k: nat)
      requires Valid() && elm.field !in links
      requires k < |elems| && elems[k] == listelm
      modifies this, Cells(), elm.field
      ensures Valid() && elems == Inserted(old(elems), k, elm)
    {
      assert listelm.field == links[k + 1];
      elm.field.last := listelm.field.last;
      elm.field.first := listelm;
      listelm.field.last.first := elm;
      listelm.field.last := elm.field;
      elems := Inserted(elems, k, elm);
      links := Inserted(links, k + 1, elm.field);
    }

    method Remove(elm: Elem<T>, ghost k: nat)
      requires Valid()
      requires k < |elems| && elems[k] == elm
      modifies this, Cells()
      ensures Valid() && elems == Removed(old(elems), k) && links == Removed(old(links), k + 1)
      ensures k == 0 ==> head.first == old(elm.field.first)
    {
      assert elm.field == links[k + 1];
      if elm.field.first != null {
        elm.field.first.field.last := elm.field.last;
      } else {
        head.last := elm.field.last;
      }
      elm.field.last.first := elm.field.first;
      elems := Removed(elems, k);
      links := Removed(links, k + 1);
    }

    method Replace(elm: Elem<T>, elm2: Elem<T>, ghost k: nat)
      requires Valid() && elm2.field !in links
      requires k < |elems| && elems[k] == elm
      modifies this, Cells(), elm2.field
      ensures Valid() && elems == old(elems)[k := elm2]
    {
      assert elm.field == links[k + 1];
      elm2.field.first := elm.field.first;
      if elm2.field.first != null {
        elm2.field.first.field.last := elm2.field;
      } else {
        head.last := elm2.field;
      }
      elm2.field.last := elm.field.last;
      elm2.field.last.first := elm2;
      elems := elems[k := elm2];
      links := links[k + 1 := elm2.field];
    }

    // TAILQ_LAST: the link addressed by tqh_last, read as a head
    method Last() returns (e: Elem?<T>)
      requires Valid()
      ensures e == if elems == [] then null else elems[|elems| - 1]
    {
      e := head.last.last.first;
    }

    // TAILQ_PREV: the link addressed by tqe_prev, read as a head
    method Prev(elm: Elem<T>, ghost k: nat) returns (e: Elem?<T>)
      requires Valid()
      requires k < |elems| && elems[k] == elm
      ensures e == if k == 0 then null else elems[k - 1]
    {
      assert elm.field == links[k + 1];
      e := elm.field.last.last.first;
    }

    // TAILQ_FOREACH
    method Forward() returns (visited: seq<Elem<T>>)
      requires Valid()
      ensures visited == elems
    {
      visited := [];
      var elm := head.first;
      while elm != null
        invariant |visited| <= |elems| && visited == elems[..|visited|]
        invariant elm == links[|visited|].first
        decreases |elems| - |visited|
      {
        visited := visited + [elm];
        elm := elm.field.first;
      }
    }

    // TAILQ_FOREACH_REVERSE
    method Backward() returns (visited: seq<Elem<T>>)
      requires Valid()
      ensures visited == Reversed(elems)
    {
      visited := [];
      var elm := Last();
      ghost var left := |elems|;
      while elm != null
        invariant 0 <= left <= |elems| && |visited| == |elems| - left
        invariant forall i :: 0 <= i < |visited| ==> visited[i] == elems[|elems| - 1 - i]
        invariant elm == if left == 0 then null else elems[left - 1]
        decreases left
      {
        visited := visited + [elm];
        left := left - 1;
        elm := Prev(elm, left);
      }
    }

    // TAILQ_FOREACH_SAFE with TAILQ_REMOVE and free in its body, as DNSContextClear runs it
    method Clear() returns (freed: seq<Elem<T>>)
      requires Valid()
      modifies this, Cells()
      ensures Valid() && elems == []
      ensures freed == old(elems)
    {
      freed := [];
      var elm := head.first;
      while elm != null
        invariant Valid() && elm == head.first
        invariant freed + elems == old(elems)
        invariant forall l :: l in links ==> l in old(links)
        decreases |elems|
      {
        assert links[0].first == elm && elm.field == links[1];
        var next := elm.field.first;
        ghost var before := elems;
        Remove(elm, 0);
        MovedOver(freed, before);
        freed := freed + [elm];
        elm := next;
      }
    }
  }
}
