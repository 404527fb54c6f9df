/**
 The list of cameras of list.c, on the cyclic list: every serial number stands in it once, in the order
 in which the cameras were first added.
 */
module CamList {
  import opened CyclicList

  function Mapped<T>(serial: T -> int, xs: seq<T>): (s: seq<int>)
    ensures |s| == |xs| && forall i :: 0 <= i < |s| ==> s[i] == serial(xs[i])
  {
    seq(|xs|, i requires 0 <= i < |xs| => serial(xs[i]))
  }

  function SerialsOf(ring: seq<Node>): (s: seq<int>)
    ensures |s| == |ring| && forall i :: 0 <= i < |s| ==> s[i] == ring[i].serial
  {
    Mapped((node: Node) => node.serial, ring)
  }

  predicate AllDifferent(s: seq<int>) {
    forall i, j :: 0 <= i < j < |s| ==> s[i] != s[j]
  }

  /** What adding and deleting do to the serial numbers. */
  function Added(s: seq<int>, serial: int): seq<int> {
    if serial in s then s else s + [serial]
  }

  function Deleted(s: seq<int>, index: int): seq<int> {
    if 0 <= index < |s| then s[..index] + s[index + 1..] else s
  }

  /** Where a serial number stands first, or -1. */
  function IndexOf(s: seq<int>, serial: int): int {
    if s == [] then -1
    else if s[0] == serial then 0
    else
      var k := IndexOf(s[1..], serial);
      if k < 0 then -1 else k + 1
  }

  lemma {:induction false} IndexOfIs(s: seq<int>, serial: int)
    ensures var k := IndexOf(s, serial);
      if serial in s then 0 <= k < |s| && s[k] == serial && serial !in s[..k] else k == -1
    decreases |s|
  {
    if s != [] && s[0] != serial {
      IndexOfIs(s[1..], serial);
      var k := IndexOf(s[1..], serial);
      assert serial in s <==> serial in s[1..];
      if k >= 0 {
        assert s[..k + 1] == [s[0]] + s[1..][..k];
      }
    }
  }

  lemma SerialsWithout(ring: seq<Node>, i: nat)
    requires 0 < i < |ring|
    ensures SerialsOf(Without(ring, i)[1..]) == Deleted(SerialsOf(ring[1..]), i - 1)
  {
    assert Without(ring, i)[1..] == ring[1..i] + ring[i + 1..];
  }

  lemma DeletedKeeps(s: seq<int>, index: int)
    requires AllDifferent(s)
    ensures AllDifferent(Deleted(s, index))
  {
  }

  class Cameras {
    const head: Node
    ghost var ring: seq<Node>

    ghost predicate Valid()
      reads this, ring
    {
      Cycle(ring) && ring[0] == head && AllDifferent(Serials())
    }

    ghost function Serials(): seq<int>
      requires |ring| > 0
      reads this
    {
      SerialsOf(ring[1..])
    }

    /** wge100CamListInit */
    constructor ()
      ensures Valid() && Serials() == [] && fresh(ring)
    {
      var h := new Node(0);
      head := h;
      ring := [h];
      new;
      InitListHead(head);
    }

    /** wge100CamListAdd: true for CAMLIST_ADD_OK, false for CAMLIST_ADD_DUP. */
    method Add(newItem: Node) returns (ok: bool)
      requires Valid() && newItem !in ring
      modifies this`ring, ring, newItem
      ensures Valid() && ok == (newItem.serial !in old(Serials())) && Serials() == Added(old(Serials()), newItem.serial)
      ensures ring == if ok then old(ring) + [newItem] else old(ring)
    {
      assert Linked(ring, 0);
      var pos, isInList := head.next, false;
      ghost var i := Successor(0, |ring|);
      while pos != head
        invariant 0 <= i < |ring| && pos == ring[i] && !isInList
        invariant forall j :: 1 <= j < (if i == 0 then |ring| else i) ==> ring[j].serial != newItem.serial
        decreases if i == 0 then 0 else |ring| - i
      {
        if newItem.serial == pos.serial {
          isInList := true;
          break;
        }
        assert Linked(ring, i);
        pos, i := pos.next, Successor(i, |ring|);
      }
      if isInList {
        assert Serials()[i - 1] == newItem.serial;
        return false;
      }
      ListAddTail(newItem, head, ring);
      assert (ring + [newItem])[1..] == ring[1..] + [newItem];
      ring := ring + [newItem];
      return true;
    }

    /** wge100CamListFind */
    method Find(serial: int) returns (index: int)
      requires Valid()
      ensures index == IndexOf(Serials(), serial)
    {
      assert Linked(ring, 0);
      var pos, count := head.next, 0;
      ghost var i := Successor(0, |ring|);
      ghost var all := Serials();
      while pos != head
        invariant 0 <= i < |ring| && pos == ring[i] && count == (if i == 0 then |ring| - 1 else i - 1)
        invariant IndexOf(all, serial) == Shifted(IndexOf(all[count..], serial), count)
        decreases if i == 0 then 0 else |ring| - i
      {
        assert all[count] == pos.serial && all[count..][1..] == all[count + 1..];
        if pos.serial == serial {
          return count;
        }
        assert Linked(ring, i);
        pos, i, count := pos.next, Successor(i, |ring|), count + 1;
      }
      return -1;
    }

    /** wge100CamListGetEntry: an index that is too large gives the head, not the last entry. */
    method GetEntry(index: int) returns (entry: Node)
      requires Valid()
      ensures entry == if 0 <= index < |Serials()| then ring[index + 1] else head
    {
      assert Linked(ring, 0);
      var left := index;
      entry := head.next;
      ghost var i := Successor(0, |ring|);
      while entry != head
        invariant 0 <= i < |ring| && entry == ring[i] && left == index - (if i == 0 then |ring| - 1 else i - 1)
        invariant index < 0 || left >= 0
        decreases if i == 0 then 0 else |ring| - i
      {
        left := left - 1;
        if left + 1 == 0 {
          break;
        }
        assert Linked(ring, i);
        entry, i := entry.next, Successor(i, |ring|);
      }
    }

    /** wge100CamListNumEntries */
    method NumEntries() returns (count: nat)
      requires Valid()
      ensures count == |Serials()|
    {
      assert Linked(ring, 0);
      var pos := head.next;
      count := 0;
      ghost var i := Successor(0, |ring|);
      while pos != head
        invariant 0 <= i < |ring| && pos == ring[i] && count == (if i == 0 then |ring| - 1 else i - 1)
        decreases if i == 0 then 0 else |ring| - i
      {
        assert Linked(ring, i);
        pos, i, count := pos.next, Successor(i, |ring|), count + 1;
      }
    }

    /** Deleting an entry of the list. */
    method TakeOut(entry: Node, ghost i: nat)
      requires Valid() && 0 < i < |ring| && entry == ring[i]
      modifies this`ring, ring
      ensures Valid() && Serials() == Deleted(old(Serials()), i - 1) && ring == Without(old(ring), i)
      ensures forall x :: x in ring ==> x in old(ring)
    {
      ListDel(entry, ring, i);
      ring := Without(ring, i);
      SerialsWithout(old(ring), i);
      DeletedKeeps(old(Serials()), i - 1);
    }

    /** wge100CamListDelEntry: the entry is taken out before it is freed. */
    method DelEntry(index: int) returns (code: int)
      requires Valid()
      modifies this`ring, ring
      ensures Valid() && code == (if 0 <= index < |old(Serials())| then 0 else -1)
      ensures Serials() == Deleted(old(Serials()), index) && forall x :: x in ring ==> x in old(ring)
    {
      assert Linked(ring, 0);
      var pos, count := head.next, 0;
      ghost var i := Successor(0, |ring|);
      while pos != head
        invariant 0 <= i < |ring| && pos == ring[i] && count == (if i == 0 then |ring| - 1 else i - 1)
        invariant index < 0 || count <= index
        decreases if i == 0 then 0 else |ring| - i
      {
        assert Linked(ring, i);
        var q := pos.next;
        count := count + 1;
        if count - 1 == index {
          TakeOut(pos, i);
          return 0;
        }
        pos, i := q, Successor(i, |ring|);
      }
      return -1;
    }

    /** One operation, with a node of its own for a camera that is added. */
    method Apply(op: Operation)
      requires Valid()
      modifies this`ring, ring
      ensures Valid() && Serials() == Applied(old(Serials()), op)
      ensures forall x :: x in ring ==> x in old(ring) || fresh(x)
    {
      match op
      case AddSerial(serial) =>
        var item := new Node(serial);
        var ok := Add(item);
      case DelIndex(index) =>
        var code := DelEntry(index);
    }

    /** wge100CamListDelAll */
    method DelAll()
      requires Valid()
      modifies this`ring, ring
      ensures Valid() && Serials() == []
    {
      assert Linked(ring, 0);
      var pos := head.next;
      while pos != head
        invariant Valid() && pos == ring[Successor(0, |ring|)] && forall i :: 0 <= i < |ring| ==> ring[i] in old(ring)
        decreases |ring|
      {
        assert Linked(ring, 0) && Linked(ring, 1);
        var q := pos.next;
        TakeOut(pos, 1);
        pos := q;
      }
      assert |ring| == 1;
    }
  }

  function Shifted(k: int, places: nat): int {
    if k < 0 then -1 else k + places
  }

  // ---------------------------------------------------------------- every run

  datatype Operation = AddSerial(serial: int) | DelIndex(index: int)

  /** A serial number and the operation that added it. */
  datatype Entry = Entry(serial: int, at: nat)

  function Numbers(es: seq<Entry>): (s: seq<int>)
    ensures |s| == |es| && forall i :: 0 <= i < |s| ==> s[i] == es[i].serial
  {
    Mapped((e: Entry) => e.serial, es)
  }

  /** One operation on the serial numbers. */
  function Applied(s: seq<int>, op: Operation): seq<int> {
    if op.AddSerial? then Added(s, op.serial) else Deleted(s, op.index)
  }

  /** The same with the time of each adding kept. */
  function Timed(es: seq<Entry>, op: Operation, n: nat): seq<Entry> {
    if op.AddSerial? then
      if op.serial in Numbers(es) then es else es + [Entry(op.serial, n)]
    else
      if 0 <= op.index < |es| then es[..op.index] + es[op.index + 1..] else es
  }

  /** The list after some operations. */
  function After(ops: seq<Operation>): seq<Entry> {
    if ops == [] then [] else Timed(After(ops[..|ops| - 1]), ops[|ops| - 1], |ops| - 1)
  }

  predicate InOrder(es: seq<Entry>) {
    forall i, j :: 0 <= i < j < |es| ==> es[i].at < es[j].at && es[i].serial != es[j].serial
  }

  predicate AddedThen(ops: seq<Operation>, e: Entry) {
    e.at < |ops| && ops[e.at] == AddSerial(e.serial)
  }

  /**
   After any run of adding and deleting, the serial numbers are the ones that the list operations give,
   each stands there once, and they are in the order in which they were added.
   */
  lemma {:induction false} RunInOrder(ops: seq<Operation>)
    ensures InOrder(After(ops)) && forall i :: 0 <= i < |After(ops)| ==> AddedThen(ops, After(ops)[i])
  {
    if ops != [] {
      var n := |ops| - 1;
      RunInOrder(ops[..n]);
      var es := After(ops[..n]);
      forall i | 0 <= i < |es|
        ensures AddedThen(ops, es[i])
      {
        assert AddedThen(ops[..n], es[i]);
      }
    }
  }

  /** The operations on the list itself, from an empty one: it holds what the run over entries holds. */
  method Perform(ops: seq<Operation>) returns (list: Cameras)
    ensures list.Valid() && list.Serials() == Numbers(After(ops))
  {
    list := new Cameras();
    var i := 0;
    assert ops[..0] == [];
    while i < |ops|
      invariant i <= |ops| && fresh(list) && list.Valid() && fresh(list.ring)
      invariant list.Serials() == Numbers(After(ops[..i]))
    {
      RunSerials(ops[..i], ops[i]);
      assert ops[..i + 1] == ops[..i] + [ops[i]];
      ghost var before := list.ring;
      list.Apply(ops[i]);
      assert forall x :: x in list.ring ==> x in before || fresh(x);
      assert forall k :: 0 <= k < |list.ring| ==> list.ring[k] in list.ring;
      i := i + 1;
    }
    assert ops[..i] == ops;
  }

  /** One more operation on the list is the operation on its serial numbers. */
  lemma RunSerials(ops: seq<Operation>, op: Operation)
    ensures Numbers(After(ops + [op])) == Applied(Numbers(After(ops)), op)
  {
  }
}
