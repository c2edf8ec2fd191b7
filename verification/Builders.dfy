/** Shards, which bump-allocate record bytes, and the serial builder over one. */
module Builders {
  import opened Records
  import opened Allocator
  import opened Chain
  import opened Stores

  datatype BuildError = OutOfBounds | TooLong | NoSuchShard | NoShards | NegativeLength | CapacityExceeded

  /** The slice sizes of a chain, newest first. */
  ghost function Sizes(nodes: seq<Slice>): (caps: seq<nat>)
    ensures |caps| == |nodes|
  {
    seq(|nodes|, i requires 0 <= i < |nodes| => nodes[i].data.Length)
  }

  lemma {:induction false} SizesGrow(nodes: seq<Slice>, was: seq<Slice>)
    requires |nodes| == |was| + 1 && nodes[1..] == was
    ensures Sizes(nodes) == [nodes[0].data.Length] + Sizes(was)
  {
    assert forall i :: 0 < i < |nodes| ==> nodes[i] == was[i - 1];
  }

  class Shard {
    const slices: SliceChain
    var allocatedBytes: nat
    var currentSliceUsed: nat
    var currentSliceCapacity: nat

    /** Where the shard is in the allocator's policy. */
    ghost function Cursor(): Bump
      reads this, slices
    {
      Bump(Sizes(slices.nodes), currentSliceUsed, currentSliceCapacity, allocatedBytes)
    }

    /** The chain is sound, the cursor is inside the newest slice, every size fits
        a u32, and the slices left behind waste no more than was asked for twice. */
    ghost predicate Valid()
      reads this, slices, slices.nodes
    {
      var b := Cursor();
      && slices.Valid() && b.Ok() && b.cap < U32_LIMIT
      && b.used <= b.given && Retired(b) <= 2 * b.given - b.used
    }

    constructor ()
      ensures Valid() && fresh(slices) && slices.nodes == [] && Cursor() == FRESH
    {
      slices := new SliceChain();
      allocatedBytes, currentSliceUsed, currentSliceCapacity := 0, 0, 0;
    }

    /** Assigns a new shard over this one: its slices go back. */
    method Reset()
      requires slices.Valid()
      modifies this, slices, slices.nodes
      ensures Valid() && slices.nodes == [] && Cursor() == FRESH
      ensures forall k :: 0 <= k < |old(slices.nodes)| ==> old(slices.nodes)[k].freed
    {
      slices.Clear();
      allocatedBytes, currentSliceUsed, currentSliceCapacity := 0, 0, 0;
    }

    /** Opens the slice that the policy asks for. No size it computes leaves the range of a u32. */
    method OpenSlice(len: nat, hint: nat)
      requires Valid() && 0 < len <= STRING_MAX && hint <= XLEN_MAX
      modifies this, slices
      ensures slices.Valid() && |slices.nodes| == |old(slices.nodes)| + 1 && slices.nodes[1..] == old(slices.nodes)
      ensures fresh(slices.nodes[0]) && fresh(slices.nodes[0].data)
      ensures Cursor() == Bump([NextSlice(hint, allocatedBytes, len)] + old(Cursor()).caps, 0, NextSlice(hint, allocatedBytes, len), allocatedBytes)
      ensures allocatedBytes == old(allocatedBytes) && len <= currentSliceCapacity < U32_LIMIT
    {
      var initial := InitialSliceHeuristic(hint);
      var regular := Min(RoundUp(Max(initial, allocatedBytes / 2), ALIGNMENT), MAX_SLICE);
      var cap := RoundUp(Max(regular, len), ALIGNMENT);
      NextSliceFits(hint, allocatedBytes, len);
      assert cap < U32_LIMIT;
      var data := slices.PushFront(cap);
      SizesGrow(slices.nodes, old(slices.nodes));
      currentSliceUsed, currentSliceCapacity := 0, cap;
    }

    /** Hands out the next len bytes, opening a slice if the newest has too little
        left. It moves the cursor as the policy says and touches no stored byte. */
    method AllocateBytes(len: nat, hint: nat) returns (dest: Ptr)
      requires Valid() && len <= STRING_MAX && hint <= XLEN_MAX
      modifies this, slices
      ensures Valid() && Cursor() == old(Cursor()).Take(hint, len)
      ensures len == 0 ==> dest == EmptyByte && slices.nodes == old(slices.nodes)
      ensures len > 0 ==> slices.nodes != [] && dest == In(slices.nodes[0].data, currentSliceUsed - len)
      ensures len > 0 ==> dest.off + len == currentSliceUsed <= dest.block.Length
      ensures len > 0 && old(Cursor()).Fits(len) ==> slices.nodes == old(slices.nodes) && dest.off == old(currentSliceUsed)
      ensures len > 0 && !old(Cursor()).Fits(len) ==>
                && |slices.nodes| == |old(slices.nodes)| + 1 && slices.nodes[1..] == old(slices.nodes)
                && fresh(slices.nodes[0]) && fresh(slices.nodes[0].data) && dest.off == 0
    {
      if len == 0 {
        return EmptyByte;
      }
      ghost var b := Cursor();
      TakeBound(b, hint, len);
      var empty := slices.IsEmpty();
      if empty || currentSliceCapacity - currentSliceUsed < len {
        OpenSlice(len, hint);
      }
      dest := In(slices.head.data, currentSliceUsed);
      currentSliceUsed := currentSliceUsed + len;
      allocatedBytes := allocatedBytes + len;
    }
  }

  /** The rest of the newest slice holds no record. */
  ghost predicate RestIsFree(rows: seq<Row>, shard: Shard)
    reads shard, shard.slices
  {
    shard.slices.nodes != [] ==> Below(rows, shard.slices.nodes[0].data, shard.currentSliceUsed)
  }

  /** The entry of a record whose bytes go to dest. */
  function RowAt(dest: Ptr, len: nat, enc: byte): Row {
    if enc == NA_TAG then NaRow() else if len == 0 then EmptyRow(enc) else Row(dest, len, enc)
  }

  /** The bytes a record takes from its shard. */
  function Need(len: nat, enc: byte): nat {
    if enc == NA_TAG then 0 else len
  }

  ghost predicate Grown(nodes: seq<Slice>, was: seq<Slice>) {
    nodes == was || (|nodes| == |was| + 1 && nodes[1..] == was)
  }

  lemma {:induction false} GrownOwned(nodes: seq<Slice>, was: seq<Slice>)
    requires Grown(nodes, was)
    ensures Owned(nodes) == if nodes == was then Owned(was) else Owned(was) + {nodes[0].data}
  {
    if nodes != was {
      OwnedGrows(was, nodes);
    }
  }

  /** Bytes past every entry of their block meet no entry. */
  lemma {:induction false} BelowNoOverlap(rows: seq<Row>, blocks: set<array<byte>>, block: array<byte>, off: nat, len: nat, enc: byte)
    requires Laid(rows, blocks) && (block in blocks ==> Below(rows, block, off))
    ensures forall j :: 0 <= j < |rows| ==> NoOverlap(Row(In(block, off), len, enc), rows[j])
  {
    forall j | 0 <= j < |rows|
      ensures NoOverlap(Row(In(block, off), len, enc), rows[j])
    {
      assert RowOk(rows[j], blocks);
    }
  }

  /** Makes entry idx ready for len bytes, in space of its own. Nothing that is
      stored moves. */
  method FillRecord(shard: Shard, records: RecordTable, idx: nat, len: nat, enc: byte, ghost blocks: set<array<byte>>)
    returns (r: Result<Ptr, BuildError>)
    requires shard.Valid() && records.Valid() && RestIsFree(records.rows, shard)
    requires Laid(records.rows, blocks) && Owned(shard.slices.nodes) <= blocks
    modifies shard, shard.slices, records
    ensures shard.Valid() && records.Valid() && records.capacity == old(records.capacity) && RestIsFree(records.rows, shard)
    ensures Laid(records.rows, blocks + Owned(shard.slices.nodes)) && Grown(shard.slices.nodes, old(shard.slices.nodes))
    ensures shard.slices.nodes != old(shard.slices.nodes) ==> fresh(shard.slices.nodes[0]) && fresh(shard.slices.nodes[0].data)
    ensures r == Err(OutOfBounds) <==> idx >= |old(records.rows)|
    ensures r == Err(TooLong) <==> idx < |old(records.rows)| && len > STRING_MAX
    ensures r.Err? ==> r.error in {OutOfBounds, TooLong} && records.rows == old(records.rows)
                          && shard.slices.nodes == old(shard.slices.nodes) && shard.Cursor() == old(shard.Cursor())
    ensures r.Ok? ==> records.rows == old(records.rows)[idx := RowAt(r.value, len, enc)]
    ensures r.Ok? ==> shard.Cursor() == old(shard.Cursor()).Take(|records.rows|, Need(len, enc))
    ensures r.Ok? && Need(len, enc) > 0 ==>
              shard.slices.nodes != [] && r.value == In(shard.slices.nodes[0].data, shard.currentSliceUsed - len)
  {
    ghost var rows := records.rows;
    if idx >= |records.rows| {
      LaidGrows(rows, blocks, blocks + Owned(shard.slices.nodes));
      return Err(OutOfBounds);
    }
    if len > STRING_MAX {
      LaidGrows(rows, blocks, blocks + Owned(shard.slices.nodes));
      return Err(TooLong);
    }
    if enc == NA_TAG || len == 0 {
      r := Ok(if enc == NA_TAG then Null else EmptyByte);
      records.Set(idx, RowAt(r.value, len, enc));
      LaidGrows(rows, blocks, blocks + Owned(shard.slices.nodes));
      LaidUpdate(rows, blocks + Owned(shard.slices.nodes), idx, RowAt(r.value, len, enc));
      return;
    }
    ghost var was := shard.slices.nodes;
    var dest := shard.AllocateBytes(len, |records.rows|);
    GrownOwned(shard.slices.nodes, was);
    assert shard.slices.nodes[0].data in Owned(shard.slices.nodes);
    BelowNoOverlap(rows, blocks, dest.block, dest.off, len, enc);
    records.Set(idx, Row(dest, len, enc));
    LaidGrows(rows, blocks, blocks + Owned(shard.slices.nodes));
    LaidUpdate(rows, blocks + Owned(shard.slices.nodes), idx, Row(dest, len, enc));
    r := Ok(dest);
  }

  /** What a caller passes: bytes, or a null pointer, with a length and a tag. */
  datatype Source = Source(ptr: Option<seq<byte>>, len: nat, enc: byte) {
    predicate IsNa() {
      ptr.None? || enc == NA_TAG
    }

    /** The bytes can be read, unless they are too many to be. */
    ghost predicate Readable() {
      !IsNa() && len <= STRING_MAX ==> len <= |ptr.value|
    }

    /** The record it stands for. */
    function Rec(): Rec {
      if IsNa() then NA else Str(if len <= |ptr.value| then ptr.value[..len] else [], enc)
    }

    /** The bytes it takes from a shard. */
    function Taken(): nat {
      if IsNa() then 0 else len
    }
  }

  /** Stores a copy of a value as record idx. No other record changes. */
  method CopyRecord(shard: Shard, records: RecordTable, idx: nat, value: Source, ghost blocks: set<array<byte>>)
    returns (r: Result<Ptr, BuildError>)
    requires shard.Valid() && records.Valid() && RestIsFree(records.rows, shard)
    requires Laid(records.rows, blocks) && Owned(shard.slices.nodes) <= blocks && value.Readable()
    modifies shard, shard.slices, records, Owned(shard.slices.nodes)
    ensures shard.Valid() && records.Valid() && records.capacity == old(records.capacity) && RestIsFree(records.rows, shard)
    ensures Laid(records.rows, blocks + Owned(shard.slices.nodes)) && Grown(shard.slices.nodes, old(shard.slices.nodes))
    ensures shard.slices.nodes != old(shard.slices.nodes) ==> fresh(shard.slices.nodes[0]) && fresh(shard.slices.nodes[0].data)
    ensures r == Err(OutOfBounds) <==> idx >= |old(records.rows)|
    ensures r == Err(TooLong) <==> idx < |old(records.rows)| && value.Taken() > STRING_MAX
    ensures r.Err? ==> r.error in {OutOfBounds, TooLong} && records.rows == old(records.rows)
                          && shard.slices.nodes == old(shard.slices.nodes) && shard.Cursor() == old(shard.Cursor())
    ensures r.Ok? ==> records.rows == old(records.rows)[idx := RowAt(r.value, value.Taken(), value.Rec().Tag())]
    ensures r.Ok? ==> shard.Cursor() == old(shard.Cursor()).Take(|records.rows|, value.Taken())
    ensures r.Ok? && value.Taken() > 0 ==>
              shard.slices.nodes != [] && r.value == In(shard.slices.nodes[0].data, shard.currentSliceUsed - value.len)
    ensures RecsOf(records.rows) == if r.Ok? then old(RecsOf(records.rows))[idx := value.Rec()] else old(RecsOf(records.rows))
  {
    ghost var before, was := records.rows, RecsOf(records.rows);
    var len, enc := if value.IsNa() then 0 else value.len, if value.IsNa() then NA_TAG else value.enc;
    r := FillRecord(shard, records, idx, len, enc, blocks);
    assert RecsOf(before) == was;
    if r.Ok? {
      ghost var rows := records.rows;
      UpdatedRecs(before, rows, idx);
      if r.value != Null && len > 0 {
        WriteRow(r.value.block, r.value.off, value.ptr.value[..len], rows, blocks + Owned(shard.slices.nodes), idx);
      }
    }
  }

  lemma {:induction false} OwnedJoin(a: seq<Slice>, b: seq<Slice>)
    ensures Owned(a + b) == Owned(a) + Owned(b)
  {
    forall x | x in Owned(a) + Owned(b)
      ensures x in Owned(a + b)
    {
      if x in Owned(a) {
        var i :| 0 <= i < |a| && a[i].data == x;
        assert (a + b)[i].data == x;
      } else {
        var i :| 0 <= i < |b| && b[i].data == x;
        assert (a + b)[|a| + i].data == x;
      }
    }
  }

  /** Hands a shard's slices to the Store, in front of those it has, and starts the shard over. */
  method FinishShard(store: Store, shard: Shard)
    requires store.slices.Valid() && shard.Valid() && store.slices != shard.slices
    requires Apart(store.slices.nodes, shard.slices.nodes)
    modifies store.slices, shard, shard.slices, shard.slices.nodes
    ensures store.slices.Valid() && store.slices.nodes == old(shard.slices.nodes) + old(store.slices.nodes)
    ensures Owned(store.slices.nodes) == old(Owned(shard.slices.nodes)) + old(Owned(store.slices.nodes))
    ensures shard.Valid() && shard.slices.nodes == [] && shard.Cursor() == FRESH
  {
    OwnedJoin(shard.slices.nodes, store.slices.nodes);
    store.slices.Prepend(shard.slices);
    shard.Reset();
  }

  /** The serial builder. */
  class Builder {
    const store: Store
    const shard: Shard

    ghost predicate Valid()
      reads this, store, store.slices, store.slices.nodes, store.records, shard, shard.slices, shard.slices.nodes
    {
      && store.slices.Valid() && store.records.Valid() && shard.Valid()
      && store.slices != shard.slices && Apart(store.slices.nodes, shard.slices.nodes)
      && Laid(store.records.rows, Owned(store.slices.nodes) + Owned(shard.slices.nodes))
      && RestIsFree(store.records.rows, shard)
    }

    ghost function Contents(): (recs: seq<Rec>)
      reads this, store, store.records, BlocksOf(store.records.rows)
    {
      store.Contents()
    }

    /** A builder of n NA records. */
    constructor (n: nat)
      requires n <= MAX_CAPACITY
      ensures Valid() && fresh(store) && fresh(store.slices) && fresh(store.records) && fresh(shard) && fresh(shard.slices)
      ensures store.slices.nodes == [] && shard.Cursor() == FRESH && Contents() == seq(n, _ => NA)
    {
      store := new Store(n, 0);
      shard := new Shard();
    }

    /** Stores a copy of a value as record i. */
    method Set(i: nat, value: Source) returns (r: Result<Ptr, BuildError>)
      requires Valid() && value.Readable()
      modifies store.records, shard, shard.slices, Owned(shard.slices.nodes)
      ensures Valid() && Grown(shard.slices.nodes, old(shard.slices.nodes))
      ensures shard.slices.nodes != old(shard.slices.nodes) ==> fresh(shard.slices.nodes[0]) && fresh(shard.slices.nodes[0].data)
      ensures r == Err(OutOfBounds) <==> i >= |old(Contents())|
      ensures r == Err(TooLong) <==> i < |old(Contents())| && value.Taken() > STRING_MAX
      ensures r.Err? ==> r.error in {OutOfBounds, TooLong} && shard.Cursor() == old(shard.Cursor())
      ensures r.Ok? ==> shard.Cursor() == old(shard.Cursor()).Take(|Contents()|, value.Taken())
      ensures Contents() == if r.Ok? then old(Contents())[i := value.Rec()] else old(Contents())
    {
      ghost var was, blocks := shard.slices.nodes, Owned(store.slices.nodes) + Owned(shard.slices.nodes);
      r := CopyRecord(shard, store.records, i, value, blocks);
      GrownOwned(shard.slices.nodes, was);
      assert blocks + Owned(shard.slices.nodes) == Owned(store.slices.nodes) + Owned(shard.slices.nodes);
    }

    /** Gives the finished Store away: every live record is in a slice the Store
        itself owns, and the builder keeps none. */
    method ReleaseStore() returns (out: Store)
      requires Valid()
      modifies store.slices, store.records, shard, shard.slices, shard.slices.nodes
      ensures out.Valid() && fresh(out) && fresh(out.slices) && fresh(out.records)
      ensures out.Contents() == old(Contents())
      ensures out.slices.nodes == old(shard.slices.nodes) + old(store.slices.nodes)
      ensures Valid() && Contents() == [] && store.slices.nodes == [] && shard.Cursor() == FRESH
    {
      ghost var rows, recs := store.records.rows, Contents();
      FinishShard(store, shard);
      assert RecsOf(rows) == recs;
      out := new Store.Move(store);
    }

    /** Starts over with n NA records. Every slice goes back, unless the size is refused. */
    method Reset(n: int) returns (error: Option<BuildError>)
      requires Valid()
      modifies store.slices, store.slices.nodes, store.records, shard, shard.slices, shard.slices.nodes
      ensures Valid() && (error == Some(NegativeLength) <==> n < 0) && (error == Some(CapacityExceeded) <==> n > MAX_CAPACITY)
      ensures error.None? <==> 0 <= n <= MAX_CAPACITY
      ensures error.Some? ==>
                && shard.Cursor() == old(shard.Cursor()) && Contents() == old(Contents())
                && shard.slices.nodes == old(shard.slices.nodes) && store.slices.nodes == old(store.slices.nodes)
      ensures error.None? ==> Contents() == seq(n, _ => NA) && shard.Cursor() == FRESH && store.slices.nodes == []
      ensures error.None? ==> forall k :: 0 <= k < |old(store.slices.nodes)| ==> old(store.slices.nodes)[k].freed
      ensures error.None? ==> forall k :: 0 <= k < |old(shard.slices.nodes)| ==> old(shard.slices.nodes)[k].freed
    {
      if n < 0 {
        return Some(NegativeLength);
      }
      if n > MAX_CAPACITY {
        return Some(CapacityExceeded);
      }
      var next := new Store(n, 0);
      store.MoveAssign(next);
      shard.Reset();
      assert Owned(store.slices.nodes) + Owned(shard.slices.nodes) == Owned(store.slices.nodes);
      error := None;
    }
  }

  /** A builder of n NA records, or why there can be none. */
  method MakeBuilder(n: int) returns (r: Result<Builder, BuildError>)
    ensures r == Err(NegativeLength) <==> n < 0
    ensures r == Err(CapacityExceeded) <==> n > 0x10_0000_0000_0000
    ensures r.Ok? <==> 0 <= n <= 0x10_0000_0000_0000
    ensures r.Ok? ==> fresh(r.value) && r.value.Valid() && r.value.Contents() == seq(n, _ => NA) && r.value.shard.Cursor() == FRESH
  {
    if n < 0 {
      return Err(NegativeLength);
    }
    if n > MAX_CAPACITY {
      return Err(CapacityExceeded);
    }
    var b := new Builder(n);
    r := Ok(b);
  }

  /** A Store of one record, in a slice of exactly its size. */
  method Scalar(value: Source) returns (r: Result<Store, BuildError>)
    requires value.Readable()
    ensures r == Err(TooLong) <==> value.Taken() > STRING_MAX
    ensures r.Err? <==> value.Taken() > STRING_MAX
    ensures r.Ok? ==> fresh(r.value) && r.value.Valid() && r.value.Contents() == [value.Rec()]
    ensures r.Ok? ==> Sizes(r.value.slices.nodes) == if value.Taken() > 0 then [value.Taken()] else []
  {
    if value.IsNa() {
      var na := new Store(1, 0);
      return Ok(na);
    }
    if value.len > STRING_MAX {
      return Err(TooLong);
    }
    var out := new Store(1, value.len);
    if value.len == 0 {
      ClearRow(out.records, 0, EmptyRow(value.enc), Owned(out.slices.nodes));
    } else {
      var block := out.slices.head.data;
      assert block == out.slices.nodes[0].data && block in Owned(out.slices.nodes);
      PlaceRow(out.records, 0, block, 0, value.ptr.value[..value.len], value.enc, Owned(out.slices.nodes));
    }
    r := Ok(out);
  }
}
