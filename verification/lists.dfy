/** The circular doubly linked lists of list.h, whose links sit in the structures they list. */
module Lists {
  // struct list, with the structure that container_of finds around it
  class Link<T(0)> {
    var prev: Link?<T>
    var next: Link?<T>
    var entry: T

    constructor ()
      ensures prev == null && next == null
    {
      prev, next := null, null;
    }

    // LIST_INIT_HEAD
    method InitHead()
      modifies this`prev, this`next
      ensures Ring([this])
    {
      prev, next := this, this;
      assert JoinedAt([this], 0);
    }
  }

  ghost predicate Joined<T(0)>(a: Link<T>, b: Link<T>)
    reads a, b
  {
    a.next == b && b.prev == a
  }

  ghost predicate Distinct<T>(s: seq<T>)
  {
    forall i, j :: 0 <= i < j < |s| ==> s[i] != s[j]
  }

  function After(i: nat, n: nat): nat
  {
    if i + 1 < n then i + 1 else 0
  }

  // Number i and the link after it point at each other.
  ghost predicate JoinedAt<T(0)>(s: seq<Link<T>>, i: nat)
    requires i < |s|
    reads s
  {
    Joined(s[i], s[After(i, |s|)])
  }

  // The links s, the first of which is the head, form a closed ring in this order.
  ghost predicate Ring<T(0)>(s: seq<Link<T>>)
    reads s
  {
    |s| > 0 && Distinct(s) && forall i {:trigger JoinedAt(s, i)} :: 0 <= i < |s| ==> JoinedAt(s, i)
  }

  // s without its element number i
  function Drop<T>(s: seq<T>, i: nat): (t: seq<T>)
    requires i < |s|
    ensures |t| == |s| - 1
  {
    s[..i] + s[i + 1..]
  }

  lemma DropDistinct<T>(s: seq<T>, i: nat)
    requires i < |s| && Distinct(s)
    ensures Distinct(Drop(s, i)) && s[i] !in Drop(s, i)
  {
  }

  // _list_add
  method Insert<T(0)>(node: Link<T>, prev: Link<T>, next: Link<T>)
    requires node != prev && node != next
    modifies next`prev, node`next, node`prev, prev`next
    ensures Joined(prev, node) && Joined(node, next)
  {
    next.prev := node;
    node.next := next;
    node.prev := prev;
    prev.next := node;
  }

  // list_add_tail: the new link stands at the end of the list.
  method AddTail<T(0)>(head: Link<T>, node: Link<T>, ghost s: seq<Link<T>>)
    requires Ring(s) && s[0] == head && node !in s
    modifies s`next, s`prev, node`next, node`prev
    ensures Ring(s + [node])
  {
    assert JoinedAt(s, |s| - 1);
    Insert(node, head.prev, head);
    ghost var t := s + [node];
    forall i | 0 <= i < |t| ensures JoinedAt(t, i) {
      if i < |s| {
        assert old(JoinedAt(s, i));
      }
    }
  }

  // list_add: the new link stands at the front.
  method AddFront<T(0)>(head: Link<T>, node: Link<T>, ghost s: seq<Link<T>>)
    requires Ring(s) && s[0] == head && node !in s
    modifies s`next, s`prev, node`next, node`prev
    ensures Ring([head, node] + s[1..])
  {
    assert JoinedAt(s, 0);
    Insert(node, head, head.next);
    ghost var t := [head, node] + s[1..];
    forall i | 0 <= i < |t| ensures JoinedAt(t, i) {
      if i >= 2 {
        assert old(JoinedAt(s, i - 1));
      }
    }
  }

  // _list_del
  method Unlink<T(0)>(prev: Link<T>, next: Link<T>)
    modifies next`prev, prev`next
    ensures Joined(prev, next)
  {
    next.prev := prev;
    prev.next := next;
  }

  // list_del
  method Delete<T(0)>(node: Link<T>, ghost s: seq<Link<T>>, ghost i: nat)
    requires Ring(s) && 0 < i < |s| && s[i] == node
    modifies s`next, s`prev
    ensures Ring(Drop(s, i)) && node.prev == null && node.next == null
  {
    assert JoinedAt(s, i - 1) && JoinedAt(s, i);
    Unlink(node.prev, node.next);
    node.prev, node.next := null, null;
    ghost var t := Drop(s, i);
    DropDistinct(s, i);
    forall j | 0 <= j < |t| ensures JoinedAt(t, j) {
      DropNext(s, i, j);
      if j != i - 1 {
        assert old(JoinedAt(s, if j < i then j else j + 1));
      }
    }
  }

  lemma DropNext<T>(s: seq<T>, i: nat, j: nat)
    requires 0 < i < |s| && j < |s| - 1
    ensures j == i - 1 ==> Drop(s, i)[j] == s[i - 1] && Drop(s, i)[After(j, |s| - 1)] == s[After(i, |s|)]
    ensures j != i - 1 ==>
      var k := if j < i then j else j + 1;
      k != i && k != i - 1 && Drop(s, i)[j] == s[k] && Drop(s, i)[After(j, |s| - 1)] == s[After(k, |s|)]
  {
  }
}
