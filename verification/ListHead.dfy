/** libspider/List.cpp: the intrusive ring list. */
module Rings {
  import opened Seqs

  /** The node behind the i-th one of a ring that is cut open at its head. */
  function Follow<T>(ring: seq<T>, i: nat): T
    requires i < |ring|
  {
    if i + 1 == |ring| then ring[0] else ring[i+1]
  }

  /** The ring with item in front of its k-th node; in front of the head is
      the end. */
  function Added<T>(ring: seq<T>, k: nat, item: T): (r: seq<T>)
    requires k < |ring|
    ensures |r| == |ring| + 1
  {
    if k == 0 then ring + [item] else ring[..k] + [item] + ring[k..]
  }

  function Removed<T>(ring: seq<T>, k: nat): (r: seq<T>)
    requires k < |ring|
    ensures |r| == |ring| - 1
  {
    ring[..k] + ring[k+1..]
  }

  class ListHead<T(0)> {
    var prev: ListHead<T>
    var next: ListHead<T>
    // The structure around the node, which LIST_ENTRY recovers.
    var entry: T

    constructor (entry: T)
      ensures prev == next == this && this.entry == entry
      ensures Linked([this])
    {
      this.entry := entry;
      prev, next := this, this;
    }

    /** add: item goes in front of this node, which is the k-th of ring. */
    method Add(item: ListHead<T>, ghost ring: seq<ListHead<T>>, ghost k: nat)
      requires Linked(ring) && k < |ring| && ring[k] == this && item !in ring
      modifies this`prev, prev`next, item`prev, item`next
      ensures Linked(Added(ring, k, item))
    {
      ghost var j := if k == 0 then |ring| - 1 else k - 1;
      assert Joined(ring, j);
      item.prev := prev;
      item.next := this;
      prev.next := item;
      prev := item;
      ghost var after := Added(ring, k, item);
      forall i | 0 <= i < |after|
        ensures Joined(after, i)
      {
        ghost var was := if k == 0 || i < k then i else i - 1;
        assert was < |ring| ==> old(Joined(ring, was));
      }
    }

    /** remove: this node, the k-th of ring, is left alone. */
    method Remove(ghost ring: seq<ListHead<T>>, ghost k: nat)
      requires Linked(ring) && k < |ring| && ring[k] == this
      modifies this`prev, this`next, prev`next, next`prev
      ensures Linked(Removed(ring, k)) && prev == next == this
    {
      ghost var j := if k == 0 then |ring| - 1 else k - 1;
      assert Joined(ring, j) && Joined(ring, k);
      prev.next := next;
      next.prev := prev;
      prev, next := this, this;
      ghost var after := Removed(ring, k);
      forall i | 0 <= i < |after|
        ensures Joined(after, i)
      {
        assert old(Joined(ring, if i < k then i else i + 1));
      }
    }
  }

  ghost predicate Joined<T(0)>(ring: seq<ListHead<T>>, i: nat)
    requires i < |ring|
    reads ring
  {
    ring[i].next == Follow(ring, i) && Follow(ring, i).prev == ring[i]
  }

  /** The nodes of ring are linked in this order, round and round. */
  ghost predicate Linked<T(0)>(ring: seq<ListHead<T>>)
    reads ring
  {
    && NoDup(ring)
    && forall i {:trigger Joined(ring, i)} :: 0 <= i < |ring| ==> Joined(ring, i)
  }
}
