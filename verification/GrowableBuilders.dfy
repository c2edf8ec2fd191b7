/** The builder whose length is not known in advance. */
module GrowableBuilders {
  import opened Records
  import opened Allocator
  import opened Chain
  import opened Stores
  import opened Builders

  /** Appending a sound entry that meets no other keeps the table laid out. */
  lemma {:induction false} LaidAppend(rows: seq<Row>, blocks: set<array<byte>>, r: Row)
    requires Laid(rows, blocks) && RowOk(r, blocks)
    requires forall j :: 0 <= j < |rows| ==> NoOverlap(r, rows[j])
    ensures Laid(rows + [r], blocks)
  {
    forall j, k | 0 <= j < k < |rows + [r]|
      ensures NoOverlap((rows + [r])[j], (rows + [r])[k])
    {
      if k < |rows| {
        assert NoOverlap(rows[j], rows[k]);
      } else {
        assert NoOverlap(r, rows[j]);
      }
    }
  }

  lemma {:induction false} AppendedRecs(rows: seq<Row>, r: Row)
    ensures RecsOf(rows + [r]) == RecsOf(rows) + [RowRec(r)]
  {
  }

  /** Writes the bytes of the newest entry: no other record changes. */
  method WriteLast(block: array<byte>, off: nat, bytes: seq<byte>, ghost rows: seq<Row>, ghost r: Row, ghost blocks: set<array<byte>>)
    requires Laid(rows + [r], blocks) && r.ptr == In(block, off) && r.len == |bytes|
    modifies block
    ensures RecsOf(rows + [r]) == old(RecsOf(rows)) + [Str(bytes, r.enc)]
  {
    ghost var recs := RecsOf(rows);
    AppendedRecs(rows, r);
    ghost var all := RecsOf(rows + [r]);
    assert (rows + [r])[|rows|] == r;
    WriteRow(block, off, bytes, rows + [r], blocks, |rows|);
    assert all[|rows| := Str(bytes, r.enc)] == recs + [Str(bytes, r.enc)];
  }

  class GrowableBuilder {
    const store: Store
    const shard: Shard

    ghost predicate Valid()
      reads this, store, store.slices, store.slices.nodes, store.records, shard, shard.slices, shard.slices.nodes
    {
      && store.slices.Valid() && store.records.Valid() && shard.Valid()
      && store.slices != shard.slices && Apart(store.slices.nodes, shard.slices.nodes)
      && Laid(store.records.rows, Owned(store.slices.nodes) + Owned(shard.slices.nodes))
      && RestIsFree(store.records.rows, shard)
    }

    ghost function Contents(): (recs: seq<Rec>)
      reads this, store, store.records, BlocksOf(store.records.rows)
    {
      store.Contents()
    }

    constructor ()
      ensures Valid() && fresh(store) && fresh(store.slices) && fresh(store.records) && fresh(shard) && fresh(shard.slices)
      ensures store.slices.nodes == [] && shard.Cursor() == FRESH && Contents() == []
    {
      store := new Store(0, 0);
      shard := new Shard();
    }

    /** Adds a record with bytes of its own, where the table has room. */
    method AppendBytes(len: nat, enc: byte) returns (dest: Ptr)
      requires Valid() && |store.records.rows| < store.records.capacity && 0 < len <= STRING_MAX && enc != NA_TAG
      modifies store.records, shard, shard.slices
      ensures Valid() && Grown(shard.slices.nodes, old(shard.slices.nodes))
      ensures shard.slices.nodes != old(shard.slices.nodes) ==> fresh(shard.slices.nodes[0]) && fresh(shard.slices.nodes[0].data)
      ensures store.records.rows == old(store.records.rows) + [Row(dest, len, enc)]
      ensures shard.Cursor() == old(shard.Cursor()).Take(0, len)
      ensures shard.slices.nodes != [] && dest == In(shard.slices.nodes[0].data, shard.currentSliceUsed - len)
    {
      ghost var rows, was := store.records.rows, shard.slices.nodes;
      ghost var blocks := Owned(store.slices.nodes) + Owned(shard.slices.nodes);
      dest := shard.AllocateBytes(len, 0);
      ghost var more := Owned(store.slices.nodes) + Owned(shard.slices.nodes);
      GrownOwned(shard.slices.nodes, was);
      assert dest.block in Owned(shard.slices.nodes);
      BelowNoOverlap(rows, blocks, dest.block, dest.off, len, enc);
      LaidGrows(rows, blocks, more);
      LaidAppend(rows, more, Row(dest, len, enc));
      store.records.PushBackReserved(Row(dest, len, enc));
    }

    /** Adds a record with room for len bytes. Slices are sized without regard to the length so far. */
    method AppendReserve(len: nat, enc: byte) returns (r: Result<Ptr, BuildError>)
      requires Valid()
      modifies store.records, shard, shard.slices
      ensures Valid() && Grown(shard.slices.nodes, old(shard.slices.nodes))
      ensures shard.slices.nodes != old(shard.slices.nodes) ==> fresh(shard.slices.nodes[0]) && fresh(shard.slices.nodes[0].data)
      ensures r == Err(TooLong) <==> len > STRING_MAX
      ensures r == Err(CapacityExceeded) <==> len <= STRING_MAX && |old(store.records.rows)| == MAX_CAPACITY
      ensures r.Err? ==> r.error in {TooLong, CapacityExceeded} && store.records.rows == old(store.records.rows)
                            && shard.slices.nodes == old(shard.slices.nodes) && shard.Cursor() == old(shard.Cursor())
      ensures r.Ok? ==> store.records.rows == old(store.records.rows) + [RowAt(r.value, len, enc)]
      ensures r.Ok? ==> shard.Cursor() == old(shard.Cursor()).Take(0, Need(len, enc))
      ensures r.Ok? && Need(len, enc) > 0 ==>
                shard.slices.nodes != [] && r.value == In(shard.slices.nodes[0].data, shard.currentSliceUsed - len)
    {
      if len > STRING_MAX {
        return Err(TooLong);
      }
      ghost var rows, blocks := store.records.rows, Owned(store.slices.nodes) + Owned(shard.slices.nodes);
      var ok := store.records.ReserveForAppend();
      if !ok {
        return Err(CapacityExceeded);
      }
      if enc == NA_TAG || len == 0 {
        r := Ok(if enc == NA_TAG then Null else EmptyByte);
        LaidAppend(rows, blocks, RowAt(r.value, len, enc));
        store.records.PushBackReserved(RowAt(r.value, len, enc));
        return;
      }
      var dest := AppendBytes(len, enc);
      r := Ok(dest);
    }

    /** Adds a copy of a value at the end. */
    method Append(value: Source) returns (r: Result<Ptr, BuildError>)
      requires Valid() && value.Readable()
      modifies store.records, shard, shard.slices, Owned(shard.slices.nodes)
      ensures Valid() && Grown(shard.slices.nodes, old(shard.slices.nodes))
      ensures shard.slices.nodes != old(shard.slices.nodes) ==> fresh(shard.slices.nodes[0]) && fresh(shard.slices.nodes[0].data)
      ensures r == Err(TooLong) <==> value.Taken() > STRING_MAX
      ensures r == Err(CapacityExceeded) <==> value.Taken() <= STRING_MAX && |old(Contents())| == MAX_CAPACITY
      ensures r.Err? ==> r.error in {TooLong, CapacityExceeded} && shard.Cursor() == old(shard.Cursor())
      ensures r.Ok? ==> shard.Cursor() == old(shard.Cursor()).Take(0, value.Taken())
      ensures Contents() == if r.Ok? then old(Contents()) + [value.Rec()] else old(Contents())
    {
      ghost var rows, recs := store.records.rows, Contents();
      var len, enc := if value.IsNa() then 0 else value.len, if value.IsNa() then NA_TAG else value.enc;
      r := AppendReserve(len, enc);
      assert RecsOf(rows) == recs;
      if r.Ok? {
        ghost var row := RowAt(r.value, len, enc);
        AppendedRecs(rows, row);
        if r.value != Null && len > 0 {
          WriteLast(r.value.block, r.value.off, value.ptr.value[..len], rows, row, Owned(store.slices.nodes) + Owned(shard.slices.nodes));
        }
      }
    }

    /** Gives the finished Store away. */
    method ReleaseStore() returns (out: Store)
      requires Valid()
      modifies store.slices, store.records, shard, shard.slices, shard.slices.nodes
      ensures out.Valid() && fresh(out) && fresh(out.slices) && fresh(out.records)
      ensures out.Contents() == old(Contents())
      ensures out.slices.nodes == old(shard.slices.nodes) + old(store.slices.nodes)
      ensures Valid() && Contents() == [] && store.slices.nodes == [] && shard.Cursor() == FRESH
    {
      ghost var rows, recs := store.records.rows, Contents();
      FinishShard(store, shard);
      assert RecsOf(rows) == recs;
      out := new Store.Move(store);
    }
  }
}
