/** The linked chain of payload slices that a Store, or a builder's shard, owns. */
module Chain {
  import opened Records

  class Slice {
    var next: Slice?
    const data: array<byte>
    /** Set when the slice is given back. */
    ghost var freed: bool

    constructor (size: nat, next: Slice?)
      ensures this.next == next && fresh(data) && data.Length == size && !freed
    {
      this.next := next;
      data := new byte[size];
      freed := false;
    }
  }

  /** Gives a slice back. It must not have been given back before. */
  method Deallocate(slice: Slice)
    requires !slice.freed
    modifies slice`freed
    ensures slice.freed
  {
    slice.freed := true;
  }

  class SliceChain {
    var head: Slice?
    /** The slices in order, newest first. */
    ghost var nodes: seq<Slice>

    ghost predicate Valid()
      reads this, nodes
    {
      && head == NodeAt(nodes, 0)
      && (forall i {:trigger nodes[i].next} :: 0 <= i < |nodes| ==> nodes[i].next == NodeAt(nodes, i + 1))
      && (forall i {:trigger nodes[i].freed} :: 0 <= i < |nodes| ==> !nodes[i].freed)
      && Distinct(nodes)
    }

    constructor ()
      ensures Valid() && nodes == []
    {
      head, nodes := null, [];
    }

    /** Takes over another chain's slices. */
    constructor Move(other: SliceChain)
      requires other.Valid()
      modifies other
      ensures Valid() && nodes == old(other.nodes)
      ensures other.Valid() && other.nodes == []
    {
      head, nodes := other.head, other.nodes;
      new;
      other.head, other.nodes := null, [];
    }

    method IsEmpty() returns (empty: bool)
      requires Valid()
      ensures empty <==> nodes == []
    {
      empty := head == null;
    }

    /** Opens a slice in front. */
    method PushFront(size: nat) returns (data: array<byte>)
      requires Valid()
      modifies this
      ensures Valid() && fresh(data) && data.Length == size
      ensures |nodes| == |old(nodes)| + 1 && fresh(nodes[0]) && nodes[0].data == data && nodes[1..] == old(nodes)
    {
      var slice := new Slice(size, head);
      data := slice.data;
      head := slice;
      nodes := [slice] + nodes;
    }

    method Count() returns (count: nat)
      requires Valid()
      ensures count == |nodes|
    {
      count := 0;
      var slice := head;
      while slice != null
        invariant count <= |nodes|
        invariant slice == NodeAt(nodes, count)
        decreases |nodes| - count
      {
        count := count + 1;
        slice := slice.next;
      }
    }

    /** Gives every slice back, once. */
    method Clear()
      requires Valid()
      modifies this, nodes`freed
      ensures Valid() && nodes == []
      ensures forall i :: 0 <= i < |old(nodes)| ==> old(nodes)[i].freed
    {
      ghost var all := nodes;
      ghost var k := 0;
      while head != null
        invariant k <= |all| && Valid() && nodes == all[k..]
        invariant forall i :: 0 <= i < k ==> all[i].freed
        decreases |nodes|
      {
        var next := head.next;
        Deallocate(head);
        head := next;
        k := k + 1;
        nodes := all[k..];
      }
    }

    /** Takes over another chain's slices and gives its own back. Assigning a
        chain to itself changes nothing. */
    method MoveAssign(other: SliceChain)
      requires Valid() && other.Valid() && (this != other ==> Apart(nodes, other.nodes))
      modifies this, nodes`freed, other
      ensures Valid() && nodes == old(other.nodes)
      ensures this != other ==>
                && other.Valid() && other.nodes == []
                && forall i :: 0 <= i < |old(nodes)| ==> old(nodes)[i].freed
    {
      if this != other {
        Clear();
        head, nodes := other.head, other.nodes;
        other.head, other.nodes := null, [];
      }
    }

    /** Puts another chain's slices, in order, before its own, and empties the
        other. Prepending a chain to itself changes nothing. */
    method Prepend(other: SliceChain)
      requires Valid() && other.Valid() && (this != other ==> Apart(nodes, other.nodes))
      modifies this, other, other.nodes`next
      ensures Valid() && other.Valid()
      ensures this == other ==> nodes == old(nodes)
      ensures this != other ==> nodes == old(other.nodes) + old(nodes) && other.nodes == []
    {
      var first := other.head;
      if first == null {
        assert other.nodes + nodes == nodes;
        return;
      }
      ghost var front, back := other.nodes, if this == other then [] else nodes;
      other.head, other.nodes := null, [];
      ghost var k := 0;
      var tail := first;
      while tail.next != null
        invariant k < |front| && tail == front[k]
        decreases |front| - k
      {
        tail := tail.next;
        k := k + 1;
      }
      tail.next := head;
      head := first;
      nodes := front + back;
    }
  }

  ghost function NodeAt(nodes: seq<Slice>, i: nat): Slice? {
    if i < |nodes| then nodes[i] else null
  }

  ghost predicate Distinct(nodes: seq<Slice>) {
    forall i, j :: 0 <= i < j < |nodes| ==> nodes[i] != nodes[j] && nodes[i].data != nodes[j].data
  }

  /** No slice, and no slice's bytes, in common. */
  ghost predicate Apart(a: seq<Slice>, b: seq<Slice>) {
    forall i, j :: 0 <= i < |a| && 0 <= j < |b| ==> a[i] != b[j] && a[i].data != b[j].data
  }
}
