/**
 The intrusive doubly linked list of list.h and the camera list of list.c. A list is a cycle of nodes
 that begins with its head; the head carries no entry.
 */
module CyclicList {

  class Node {
    var next: Node?
    var prev: Node?
    const serial: int

    /** A structure whose list pointers are not set yet. */
    constructor (number: int)
      ensures serial == number
    {
      serial := number;
      next, prev := null, null;
    }
  }

  function Successor(i: nat, n: nat): nat {
    if i + 1 == n then 0 else i + 1
  }

  ghost predicate NoRepeats(ring: seq<Node>) {
    forall i, j :: 0 <= i < j < |ring| ==> ring[i] != ring[j]
  }

  /** Node i of the ring and the one after it point to each other. */
  ghost predicate Linked(ring: seq<Node>, i: nat)
    requires i < |ring|
    reads ring
  {
    ring[i].next == ring[Successor(i, |ring|)] && ring[Successor(i, |ring|)].prev == ring[i]
  }

  /** The nodes form one cycle in this order, forwards along next and backwards along prev. */
  ghost predicate Cycle(ring: seq<Node>)
    reads ring
  {
    |ring| > 0 && NoRepeats(ring) && forall i :: 0 <= i < |ring| ==> Linked(ring, i)
  }

  ghost predicate Apart(a: seq<Node>, b: seq<Node>) {
    forall x :: x in a ==> x !in b
  }

  ghost function Without(ring: seq<Node>, k: nat): seq<Node>
    requires k < |ring|
  {
    ring[..k] + ring[k + 1..]
  }

  lemma InWithout(ring: seq<Node>, k: nat)
    requires NoRepeats(ring) && k < |ring|
    ensures forall x :: x in Without(ring, k) ==> x in ring && x != ring[k]
  {
  }

  /** INIT_LIST_HEAD */
  method InitListHead(p: Node)
    modifies p
    ensures Cycle([p])
  {
    p.next := p;
    p.prev := p;
  }

  lemma WithNode(ring: seq<Node>, i: nat, item: Node)
    requires NoRepeats(ring) && item !in ring && i < |ring|
    ensures NoRepeats(ring[..i + 1] + [item] + ring[i + 1..])
  {
    var more := ring[..i + 1] + [item] + ring[i + 1..];
    forall j | 0 <= j < |more|
      ensures more[j] == if j <= i then ring[j] else if j == i + 1 then item else ring[j - 1]
    {
    }
  }

  /** __list_add, between node i and the one after it. */
  method InsertBetween(item: Node, prev: Node, next: Node, ghost ring: seq<Node>, ghost i: nat)
    requires Cycle(ring) && item !in ring && i < |ring| && prev == ring[i] && next == ring[Successor(i, |ring|)]
    modifies item, prev, next
    ensures Cycle(ring[..i + 1] + [item] + ring[i + 1..])
  {
    ghost var more := ring[..i + 1] + [item] + ring[i + 1..];
    WithNode(ring, i, item);
    next.prev := item;
    item.next := next;
    item.prev := prev;
    prev.next := item;
    forall j | 0 <= j < |more|
      ensures Linked(more, j)
    {
      if j < i {
        assert old(Linked(ring, j));
      } else if j > i + 1 {
        assert old(Linked(ring, j - 1));
      }
    }
  }

  /** list_add: right behind the head. */
  method ListAdd(item: Node, head: Node, ghost ring: seq<Node>)
    requires Cycle(ring) && ring[0] == head && item !in ring
    modifies item, ring
    ensures Cycle([head, item] + ring[1..])
  {
    assert Linked(ring, 0);
    InsertBetween(item, head, head.next, ring, 0);
    assert ring[..1] + [item] + ring[1..] == [head, item] + ring[1..];
  }

  /** list_add_tail: right before the head. */
  method ListAddTail(item: Node, head: Node, ghost ring: seq<Node>)
    requires Cycle(ring) && ring[0] == head && item !in ring
    modifies item, ring
    ensures Cycle(ring + [item])
  {
    assert Linked(ring, |ring| - 1);
    InsertBetween(item, head.prev, head, ring, |ring| - 1);
    assert ring[..|ring|] + [item] + ring[|ring|..] == ring + [item];
  }

  /** __list_del: what was on both sides of node k is next to each other. */
  method Unlink(prev: Node, next: Node, ghost ring: seq<Node>, ghost k: nat)
    requires Cycle(ring) && 0 < k < |ring| && prev == ring[k - 1] && next == ring[Successor(k, |ring|)]
    modifies prev, next
    ensures Cycle(Without(ring, k))
  {
    ghost var less := Without(ring, k);
    next.prev := prev;
    prev.next := next;
    forall j | 0 <= j < |less|
      ensures Linked(less, j)
    {
      if j < k - 1 {
        assert old(Linked(ring, j));
      } else if j >= k {
        assert old(Linked(ring, j + 1));
      }
    }
  }

  /** Where an entry's own pointers lead. */
  lemma Neighbours(ring: seq<Node>, k: nat)
    requires Cycle(ring) && 0 < k < |ring|
    ensures ring[k].prev == ring[k - 1] && ring[k].next == ring[Successor(k, |ring|)]
  {
    assert Linked(ring, k - 1) && Linked(ring, k);
  }

  /** list_del */
  method ListDel(entry: Node, ghost ring: seq<Node>, ghost k: nat)
    requires Cycle(ring) && 0 < k < |ring| && entry == ring[k]
    modifies ring
    ensures Cycle(Without(ring, k)) && entry.next == null && entry.prev == null
  {
    Neighbours(ring, k);
    Unlink(entry.prev, entry.next, ring, k);
    InWithout(ring, k);
    label unlinked:
    entry.next := null;
    entry.prev := null;
    StillCycle@unlinked(Without(ring, k));
  }

  /** A cycle is not disturbed by what happens to other nodes. */
  twostate lemma StillCycle(ring: seq<Node>)
    requires old(Cycle(ring)) && forall x :: x in ring ==> x.next == old(x.next) && x.prev == old(x.prev)
    ensures Cycle(ring)
  {
    forall i | 0 <= i < |ring|
      ensures Linked(ring, i)
    {
      assert old(Linked(ring, i));
    }
  }

  /** list_del_init */
  method ListDelInit(entry: Node, ghost ring: seq<Node>, ghost k: nat)
    requires Cycle(ring) && 0 < k < |ring| && entry == ring[k]
    modifies ring
    ensures Cycle(Without(ring, k)) && Cycle([entry])
  {
    Neighbours(ring, k);
    Unlink(entry.prev, entry.next, ring, k);
    label unlinked:
    InitListHead(entry);
    assert entry !in Without(ring, k);
    StillCycle@unlinked(Without(ring, k));
  }

  /** list_empty */
  method ListEmpty(head: Node, ghost ring: seq<Node>) returns (empty: bool)
    requires Cycle(ring) && ring[0] == head
    ensures empty == (|ring| == 1)
  {
    assert Linked(ring, 0);
    empty := head.next == head;
  }

  /** list_move to the front of another list. */
  method ListMove(entry: Node, head: Node, ghost ring: seq<Node>, ghost k: nat, ghost other: seq<Node>)
    requires Cycle(ring) && 0 < k < |ring| && entry == ring[k]
    requires Cycle(other) && other[0] == head && Apart(ring, other)
    modifies ring, other
    ensures Cycle(Without(ring, k)) && Cycle([head, entry] + other[1..])
  {
    Neighbours(ring, k);
    Unlink(entry.prev, entry.next, ring, k);
    InWithout(ring, k);
    label unlinked:
    StillCycle(other);
    ListAdd(entry, head, other);
    StillCycle@unlinked(Without(ring, k));
  }

  /** list_move to the front of the entry's own list. */
  method ListMoveWithin(entry: Node, head: Node, ghost ring: seq<Node>, ghost k: nat)
    requires Cycle(ring) && 0 < k < |ring| && entry == ring[k] && ring[0] == head
    modifies ring
    ensures Cycle([head, entry] + Without(ring, k)[1..])
  {
    Neighbours(ring, k);
    Unlink(entry.prev, entry.next, ring, k);
    ListAdd(entry, head, Without(ring, k));
  }

  /** list_move_tail to the end of another list. */
  method ListMoveTail(entry: Node, head: Node, ghost ring: seq<Node>, ghost k: nat, ghost other: seq<Node>)
    requires Cycle(ring) && 0 < k < |ring| && entry == ring[k]
    requires Cycle(other) && other[0] == head && Apart(ring, other)
    modifies ring, other
    ensures Cycle(Without(ring, k)) && Cycle(other + [entry])
  {
    Neighbours(ring, k);
    Unlink(entry.prev, entry.next, ring, k);
    InWithout(ring, k);
    label unlinked:
    StillCycle(other);
    ListAddTail(entry, head, other);
    StillCycle@unlinked(Without(ring, k));
  }

  /** list_move_tail to the end of the entry's own list. */
  method ListMoveTailWithin(entry: Node, head: Node, ghost ring: seq<Node>, ghost k: nat)
    requires Cycle(ring) && 0 < k < |ring| && entry == ring[k] && ring[0] == head
    modifies ring
    ensures Cycle(Without(ring, k) + [entry])
  {
    Neighbours(ring, k);
    Unlink(entry.prev, entry.next, ring, k);
    ListAddTail(entry, head, Without(ring, k));
  }

  /** One list's entries between the head and the entries of another. */
  ghost function Joined(ring: seq<Node>, other: seq<Node>): seq<Node>
    requires |ring| > 0 && |other| > 0
  {
    [other[0]] + ring[1..] + other[1..]
  }

  lemma JoinedIs(ring: seq<Node>, other: seq<Node>)
    requires |ring| > 0 && |other| > 0 && NoRepeats(ring) && NoRepeats(other) && Apart(ring, other)
    ensures var joined, n := Joined(ring, other), |ring|;
      && |joined| == n + |other| - 1 && joined[0] == other[0] && NoRepeats(joined)
      && (forall i :: 0 < i < n ==> joined[i] == ring[i])
      && (forall i :: n <= i < |joined| ==> joined[i] == other[i - n + 1])
    ensures forall i, j :: 0 <= i < |ring| && 0 <= j < |other| ==> ring[i] != other[j]
    ensures ring[0] !in Joined(ring, other)
  {
    forall i, j | 0 <= i < |ring| && 0 <= j < |other|
      ensures ring[i] != other[j]
    {
      assert ring[i] in ring && other[j] in other;
    }
  }

  /** __list_splice: all entries of the one list right behind the head of the other. */
  method Splice(list: Node, head: Node, ghost ring: seq<Node>, ghost other: seq<Node>)
    requires Cycle(ring) && ring[0] == list && |ring| > 1
    requires Cycle(other) && other[0] == head && Apart(ring, other)
    modifies ring, other
    ensures Cycle(Joined(ring, other))
    ensures list.next == old(list.next) && list.prev == old(list.prev)
  {
    Neighbours(ring, |ring| - 1);
    JoinedIs(ring, other);
    assert Linked(ring, 0) && Linked(ring, |ring| - 1) && Linked(other, 0);
    var first, last, at := list.next, list.prev, head.next;
    first.prev := head;
    head.next := first;
    last.next := at;
    at.prev := last;
    ghost var joined, n := Joined(ring, other), |ring|;
    JoinedIs(ring, other);
    forall j | 0 <= j < |joined|
      ensures Linked(joined, j)
    {
      if 0 < j < n - 1 {
        assert old(Linked(ring, j)) && joined[j] == ring[j] && joined[j + 1] == ring[j + 1];
      } else if j >= n {
        ghost var m := j - n + 1;
        assert old(Linked(other, m)) && joined[j] == other[m];
        assert joined[Successor(j, |joined|)] == other[Successor(m, |other|)];
      }
    }
  }

  /** list_splice_init */
  method ListSpliceInit(list: Node, head: Node, ghost ring: seq<Node>, ghost other: seq<Node>)
    requires Cycle(ring) && ring[0] == list && Cycle(other) && other[0] == head && Apart(ring, other)
    modifies ring, other
    ensures Cycle(Joined(ring, other)) && Cycle([list])
  {
    var empty := ListEmpty(list, ring);
    if !empty {
      Splice(list, head, ring, other);
      JoinedIs(ring, other);
      label joined:
      InitListHead(list);
      StillCycle@joined(Joined(ring, other));
    } else {
      assert ring == [list] && Joined(ring, other) == other;
    }
  }
}
