/** The Writer: fills the records of a Store in place, in any order. */
module Writers {
  import opened Records
  import opened Allocator
  import opened Stores
  import opened Builders

  class Writer {
    const store: Store
    const initial: nat
    var slice: Ptr
    var left: nat
    var used: nat

    /** Where the Writer is in the allocator's policy. */
    ghost function At(): Cursor
      reads this
    {
      Cursor(left, used, if slice.In? then slice.block.Length else 0)
    }

    /** The Store is laid out, and no record is in the space still to be given out. */
    ghost predicate Valid()
      reads this, store, store.slices, store.slices.nodes, store.records
    {
      && store.Valid() && initial == InitialSlice(|store.records.rows|)
      && !slice.EmptyByte? && (slice.Null? ==> left == 0)
      && (slice.In? ==>
            && slice.block in Owned(store.slices.nodes) && slice.off + left == slice.block.Length
            && Below(store.records.rows, slice.block, slice.off))
    }

    constructor (store: Store)
      requires store.Valid()
      ensures Valid() && this.store == store && At() == START
    {
      this.store := store;
      initial := InitialSlice(|store.records.rows|);
      slice, left, used := Null, 0, 0;
    }

    /** Space for len bytes, apart from every record. It opens the slices and hands
        out the offsets that the policy says. */
    method Reserve(len: nat) returns (r: Result<Ptr, BuildError>)
      requires Valid()
      modifies this, store.slices
      ensures Valid() && store.records.rows == old(store.records.rows)
      ensures r == Err(TooLong) <==> len > STRING_MAX
      ensures r.Err? <==> len > STRING_MAX
      ensures r.Err? ==> At() == old(At()) && store.slices.nodes == old(store.slices.nodes)
      ensures r.Ok? ==> At() == Allocator.Reserve(old(At()), |store.records.rows|, len).0
      ensures len == 0 ==> r == Ok(EmptyByte)
      ensures r.Ok? && len > 0 ==>
                && r.value.In? && r.value.off == Allocator.Reserve(old(At()), |store.records.rows|, len).1.offset
                && slice == In(r.value.block, r.value.off + len)
      ensures r.Ok? ==>
                match Allocator.Reserve(old(At()), |store.records.rows|, len).1.newSlice
                case None => store.slices.nodes == old(store.slices.nodes)
                case Some(size) =>
                  && |store.slices.nodes| == |old(store.slices.nodes)| + 1 && store.slices.nodes[1..] == old(store.slices.nodes)
                  && fresh(store.slices.nodes[0]) && fresh(store.slices.nodes[0].data)
                  && r.value.block == store.slices.nodes[0].data && r.value.block.Length == size
      ensures r.Ok? && len > 0 ==>
                forall j :: 0 <= j < |store.records.rows| ==> forall enc :: NoOverlap(Row(r.value, len, enc), store.records.rows[j])
    {
      if len == 0 {
        return Ok(EmptyByte);
      }
      if len > STRING_MAX {
        return Err(TooLong);
      }
      ghost var rows, nodes := store.records.rows, store.slices.nodes;
      if len > left {
        var regular := Min(RoundUp(Max(initial, used / 2), ALIGNMENT), MAX_SLICE);
        var bytes := RoundUp(Max(regular, len), ALIGNMENT);
        NextSliceFits(|rows|, used, len);
        var block := store.slices.PushFront(bytes);
        OwnedGrows(nodes, store.slices.nodes);
        LaidGrows(rows, Owned(nodes), Owned(store.slices.nodes));
        NewBlockBelow(rows, Owned(nodes), block);
        slice, left := In(block, 0), bytes;
      }
      var dest := slice;
      slice, left, used := In(slice.block, slice.off + len), left - len, used + len;
      forall enc
        ensures forall j :: 0 <= j < |rows| ==> NoOverlap(Row(dest, len, enc), rows[j])
      {
        BelowNoOverlap(rows, Owned(store.slices.nodes), dest.block, dest.off, len, enc);
      }
      r := Ok(dest);
    }

    /** Record i may point at these bytes: they are in a slice of the Store, in space
        given out already, and no other record uses them. */
    ghost predicate Suits(i: nat, ptr: Ptr, len: nat, enc: byte)
      reads this, store, store.slices, store.records
    {
      var r := RowAt(ptr, len, if ptr.Null? then NA_TAG else enc);
      && RowOk(r, Owned(store.slices.nodes))
      && (r.ptr.In? && slice.In? && r.ptr.block == slice.block ==> r.ptr.off + len <= slice.off)
      && forall j :: 0 <= j < |store.records.rows| && j != i ==> NoOverlap(r, store.records.rows[j])
    }

    /** Points record i at len bytes. Nothing is checked of them: the Store stays laid
        out if they are bytes from Reserve that no other record uses. */
    method Set(i: nat, ptr: Ptr, len: nat, enc: byte) returns (r: Result<(), BuildError>)
      requires store.records.Valid()
      modifies store.records
      ensures store.records.Valid()
      ensures r == Err(OutOfBounds) <==> i >= |old(store.records.rows)|
      ensures r == Err(TooLong) <==> i < |old(store.records.rows)| && !ptr.Null? && enc != NA_TAG && len > STRING_MAX
      ensures r.Err? ==> r.error in {OutOfBounds, TooLong} && store.records.rows == old(store.records.rows)
      ensures r.Ok? ==> store.records.rows == old(store.records.rows)[i := RowAt(ptr, len, if ptr.Null? then NA_TAG else enc)]
      ensures old(Valid()) && (r.Ok? ==> old(Suits(i, ptr, len, enc))) ==> Valid()
    {
      if i >= |store.records.rows| {
        return Err(OutOfBounds);
      }
      ghost var rows, blocks := store.records.rows, Owned(store.slices.nodes);
      if !ptr.Null? && enc != NA_TAG && len > STRING_MAX {
        return Err(TooLong);
      }
      var row := RowAt(ptr, len, if ptr.Null? then NA_TAG else enc);
      store.records.Set(i, row);
      if old(Valid()) && old(Suits(i, ptr, len, enc)) {
        LaidUpdate(rows, blocks, i, row);
      }
      r := Ok(());
    }

    /** Stores a copy of a value as record i. No other record changes. */
    method Copy(i: nat, value: Source) returns (r: Result<(), BuildError>)
      requires Valid() && value.Readable()
      modifies this, store.slices, store.records, Owned(store.slices.nodes)
      ensures Valid()
      ensures r == Err(OutOfBounds) <==> i >= |old(store.records.rows)|
      ensures r == Err(TooLong) <==> i < |old(store.records.rows)| && value.Taken() > STRING_MAX
      ensures r.Err? ==> r.error in {OutOfBounds, TooLong} && At() == old(At())
      ensures r.Ok? ==> At() == Allocator.Reserve(old(At()), |store.records.rows|, value.Taken()).0
      ensures Grown(store.slices.nodes, old(store.slices.nodes))
      ensures store.slices.nodes != old(store.slices.nodes) ==> fresh(store.slices.nodes[0]) && fresh(store.slices.nodes[0].data)
      ensures Sizes(store.slices.nodes) ==
              match if r.Ok? then Allocator.Reserve(old(At()), |store.records.rows|, value.Taken()).1.newSlice else None
              case None => Sizes(old(store.slices.nodes))
              case Some(size) => [size] + Sizes(old(store.slices.nodes))
      ensures store.Contents() == if r.Ok? then old(store.Contents())[i := value.Rec()] else old(store.Contents())
    {
      if i >= |store.records.rows| {
        return Err(OutOfBounds);
      }
      ghost var rows, recs := store.records.rows, store.Contents();
      if value.IsNa() {
        r := Set(i, Null, 0, NA_TAG);
        UpdatedRecs(rows, store.records.rows, i);
        return;
      }
      ghost var was := store.slices.nodes;
      var dest := Reserve(value.len);
      if store.slices.nodes != was {
        SizesGrow(store.slices.nodes, was);
      }
      assert RecsOf(rows) == recs;
      if dest.Err? {
        return Err(dest.error);
      }
      Fill(i, dest.value, value);
      r := Ok(());
    }

    /** Copies a value to space given out for it, and points record i there. */
    method Fill(i: nat, dest: Ptr, value: Source)
      requires Valid() && value.Readable() && !value.IsNa() && value.len <= STRING_MAX && i < |store.records.rows|
      requires if value.len > 0 then dest.In? && Suits(i, dest, value.len, value.enc) else dest.EmptyByte?
      modifies store.records, if dest.In? then {dest.block} else {}
      ensures Valid() && |store.records.rows| == |old(store.records.rows)|
      ensures store.Contents() == old(store.Contents())[i := value.Rec()]
    {
      ghost var rows, recs := store.records.rows, store.Contents();
      var r := Set(i, dest, value.len, value.enc);
      UpdatedRecs(rows, store.records.rows, i);
      assert RecsOf(rows) == recs;
      if value.len > 0 {
        WriteRow(dest.block, dest.off, value.ptr.value[..value.len], store.records.rows, Owned(store.slices.nodes), i);
      }
    }
  }
}
