/** Compaction: rewriting the live records into exactly filled slices, as few as
    any contiguous grouping could use. */
module Compaction {
  import opened Records
  import opened Chain
  import opened Stores

  /** The largest slice a rebuild makes. */
  const MAX_BLOCK := 0xffff_ffff

  ghost predicate Small(lens: seq<nat>) {
    forall i :: 0 <= i < |lens| ==> lens[i] <= STRING_MAX
  }

  /** Bytes of records i to j - 1. */
  function Bytes(lens: seq<nat>, i: nat, j: nat): nat
    requires i <= j <= |lens|
  {
    if i == j then 0 else Bytes(lens, i, j - 1) + lens[j - 1]
  }

  /** Where the block that starts at i stops: the first record that has no room. */
  function Stop(lens: seq<nat>, i: nat, room: nat): (j: nat)
    requires i <= |lens|
    ensures i <= j <= |lens|
    decreases |lens| - i
  {
    if i < |lens| && lens[i] <= room then Stop(lens, i + 1, room - lens[i]) else i
  }

  lemma {:induction false} BytesSplit(lens: seq<nat>, i: nat, k: nat, j: nat)
    requires i <= k <= j <= |lens|
    ensures Bytes(lens, i, j) == Bytes(lens, i, k) + Bytes(lens, k, j)
  {
    if k < j {
      BytesSplit(lens, i, k, j - 1);
    }
  }

  /** A block holds exactly the records that fit: j is the stop if and only if the
      records up to j fit and the next one does not. */
  lemma {:induction false} StopExact(lens: seq<nat>, i: nat, room: nat, j: nat)
    requires i <= j <= |lens|
    ensures j == Stop(lens, i, room) <==>
            Bytes(lens, i, j) <= room && (j < |lens| ==> Bytes(lens, i, j) + lens[j] > room)
    decreases |lens| - i
  {
    if i < |lens| {
      assert Bytes(lens, i, i + 1) == lens[i];
      if i < j {
        BytesSplit(lens, i, i + 1, j);
        if lens[i] <= room {
          StopExact(lens, i + 1, room - lens[i], j);
        }
      } else if lens[i] <= room {
        assert Stop(lens, i, room) > i;
      }
    }
  }

  /** With valid lengths a block always takes at least one record. */
  lemma {:induction false} StopAdvances(lens: seq<nat>, i: nat)
    requires Small(lens) && i < |lens|
    ensures Stop(lens, i, MAX_BLOCK) > i
  {
  }

  /** How many slices the blocks from i on need: one for each that has bytes. */
  function Slices(lens: seq<nat>, i: nat): nat
    requires i <= |lens|
    decreases |lens| - i
  {
    if i == |lens| then 0
    else
      var j := Stop(lens, i, MAX_BLOCK);
      (if Bytes(lens, i, j) > 0 then 1 else 0) + Slices(lens, if j > i then j else i + 1)
  }

  lemma {:induction false} SlicesAt(lens: seq<nat>, i: nat, j: nat)
    requires Small(lens) && i < |lens| && j == Stop(lens, i, MAX_BLOCK)
    ensures i < j
    ensures Slices(lens, i) == (if Bytes(lens, i, j) > 0 then 1 else 0) + Slices(lens, j)
  {
    StopAdvances(lens, i);
  }

  lemma {:induction false} NoBytes(lens: seq<nat>, i: nat)
    requires Small(lens) && i <= |lens|
    ensures Slices(lens, i) == 0 <==> Bytes(lens, i, |lens|) == 0
    decreases |lens| - i
  {
    if i < |lens| {
      var j := Stop(lens, i, MAX_BLOCK);
      SlicesAt(lens, i, j);
      StopExact(lens, i, MAX_BLOCK, j);
      BytesSplit(lens, i, j, |lens|);
      NoBytes(lens, j);
    }
  }

  /** No slice is used when there are no bytes; otherwise every slice but the last
      holds at least 2^31 + 1 bytes, so there are few. */
  lemma {:induction false} SlicesBound(lens: seq<nat>, i: nat)
    requires Small(lens) && i <= |lens|
    ensures Slices(lens, i) == 0 <==> Bytes(lens, i, |lens|) == 0
    ensures Slices(lens, i) > 0 ==> (Slices(lens, i) - 1) * 0x8000_0001 < Bytes(lens, i, |lens|)
    ensures Slices(lens, i) <= 1 + Bytes(lens, i, |lens|) / 0x8000_0001
    decreases |lens| - i
  {
    NoBytes(lens, i);
    if i < |lens| {
      var j := Stop(lens, i, MAX_BLOCK);
      SlicesAt(lens, i, j);
      StopExact(lens, i, MAX_BLOCK, j);
      BytesSplit(lens, i, j, |lens|);
      SlicesBound(lens, j);
    }
  }

  /** A later start never needs more slices. */
  lemma {:induction false} SlicesMonotone(lens: seq<nat>, i: nat, k: nat)
    requires Small(lens) && i <= k <= |lens|
    ensures Slices(lens, k) <= Slices(lens, i)
    decreases |lens| - i
  {
    if i < k < |lens| {
      var e, d := Stop(lens, i, MAX_BLOCK), Stop(lens, k, MAX_BLOCK);
      SlicesAt(lens, i, e);
      SlicesAt(lens, k, d);
      StopExact(lens, i, MAX_BLOCK, e);
      StopExact(lens, k, MAX_BLOCK, d);
      if k >= e {
        SlicesMonotone(lens, e, k);
      } else {
        BytesSplit(lens, i, k, e);
        StopLater(lens, k, d, e);
        SlicesMonotone(lens, e, d);
        BytesSplit(lens, k, e, d);
      }
    }
  }

  /** A block that fits as far as e stops there or later. */
  lemma {:induction false} StopLater(lens: seq<nat>, k: nat, d: nat, e: nat)
    requires k <= e <= |lens| && d == Stop(lens, k, MAX_BLOCK) && Bytes(lens, k, e) <= MAX_BLOCK
    ensures e <= d
  {
    if d < e {
      assert Bytes(lens, k, d + 1) == Bytes(lens, k, d) + lens[d];
      BytesSplit(lens, k, d + 1, e);
      StopExact(lens, k, MAX_BLOCK, d);
    }
  }

  /** Cuts between contiguous groups, in order, the last at the end. */
  ghost predicate Cuts(lens: seq<nat>, cuts: seq<nat>) {
    && cuts != [] && cuts[|cuts| - 1] == |lens|
    && (forall k, m :: 0 <= k < m < |cuts| ==> cuts[k] <= cuts[m])
  }

  /** The slices that the groups need: one for each that has bytes. */
  ghost function Groups(lens: seq<nat>, cuts: seq<nat>): nat
    requires Cuts(lens, cuts)
  {
    if |cuts| == 1 then 0
    else (if Bytes(lens, cuts[0], cuts[1]) > 0 then 1 else 0) + Groups(lens, cuts[1..])
  }

  /** Every group is small enough for one slice. */
  ghost predicate Fitting(lens: seq<nat>, cuts: seq<nat>)
    requires Cuts(lens, cuts)
  {
    |cuts| > 1 ==> Bytes(lens, cuts[0], cuts[1]) <= 0xffff_ffff && Fitting(lens, cuts[1..])
  }

  lemma {:induction false} ZerosSkip(lens: seq<nat>, i: nat, k: nat)
    requires Small(lens) && i <= k <= |lens| && Bytes(lens, i, k) == 0
    ensures Slices(lens, i) <= Slices(lens, k)
  {
    if i < k {
      var j := Stop(lens, i, MAX_BLOCK);
      SlicesAt(lens, i, j);
      if k == |lens| {
        NoBytes(lens, i);
      } else {
        var d := Stop(lens, k, MAX_BLOCK);
        SlicesAt(lens, k, d);
        StopExact(lens, k, MAX_BLOCK, d);
        BytesSplit(lens, i, k, d);
        StopExact(lens, i, MAX_BLOCK, d);
      }
    }
  }

  /** No contiguous grouping needs fewer slices. */
  lemma {:induction false} SlicesLeast(lens: seq<nat>, cuts: seq<nat>)
    requires Small(lens) && Cuts(lens, cuts) && Fitting(lens, cuts)
    ensures Slices(lens, cuts[0]) <= Groups(lens, cuts)
    decreases |cuts|
  {
    if |cuts| > 1 {
      var i, k := cuts[0], cuts[1];
      SlicesLeast(lens, cuts[1..]);
      if Bytes(lens, i, k) == 0 {
        ZerosSkip(lens, i, k);
      } else {
        var j := Stop(lens, i, MAX_BLOCK);
        SlicesAt(lens, i, j);
        StopLater(lens, i, j, k);
        SlicesMonotone(lens, k, j);
      }
    }
  }

  // The rebuild itself.

  /** The bytes each entry needs. */
  function Lens(rows: seq<Row>): (lens: seq<nat>)
    ensures |lens| == |rows|
  {
    seq(|rows|, i requires 0 <= i < |rows| => if rows[i].IsNa() || rows[i].len < 0 then 0 else rows[i].len)
  }

  /** They are the bytes of the records. */
  lemma {:induction false} LensAre(rows: seq<Row>, blocks: set<array<byte>>, k: nat)
    requires Laid(rows, blocks) && k <= |rows|
    ensures Bytes(Lens(rows), 0, k) == Start(RecsOf(rows), k)
  {
    if k > 0 {
      LensAre(rows, blocks, k - 1);
      assert RowOk(rows[k - 1], blocks);
    }
  }

  lemma {:induction false} LensSmall(rows: seq<Row>, blocks: set<array<byte>>)
    requires Laid(rows, blocks)
    ensures Small(Lens(rows))
  {
    forall i | 0 <= i < |rows|
      ensures Lens(rows)[i] <= STRING_MAX
    {
      assert RowOk(rows[i], blocks);
    }
  }

  /** The bytes that a chain's slices can hold. */
  ghost function Room(nodes: seq<Slice>): nat {
    if nodes == [] then 0 else nodes[0].data.Length + Room(nodes[1..])
  }

  /** The first k records are copied, the rest are still NA. */
  ghost predicate Copied(rows: seq<Row>, recs: seq<Rec>, k: nat)
    reads BlocksOf(rows)
  {
    && |rows| == |recs| && k <= |recs|
    && RecsOf(rows) == recs[..k] + seq(|recs| - k, _ => NA)
    && forall m :: k <= m < |rows| ==> rows[m] == NaRow()
  }

  lemma {:induction false} CopiedStep(before: seq<Row>, was: seq<Rec>, rows: seq<Row>, recs: seq<Rec>, k: nat)
    requires k < |recs| == |before| && was == recs[..k] + seq(|recs| - k, _ => NA)
    requires forall m :: k <= m < |before| ==> before[m] == NaRow()
    requires |rows| == |before| && rows == before[k := rows[k]] && RecsOf(rows) == was[k := recs[k]]
    ensures Copied(rows, recs, k + 1)
  {
    assert RecsOf(rows) == recs[..k + 1] + seq(|recs| - (k + 1), _ => NA);
  }

  /** Where the block that starts at record i stops, and its bytes. */
  method ScanBlock(rows: seq<Row>, i: nat) returns (j: nat, blockBytes: nat)
    requires i <= |rows|
    ensures i <= j <= |rows| && j == Stop(Lens(rows), i, MAX_BLOCK)
    ensures blockBytes == Bytes(Lens(rows), i, j) <= MAX_BLOCK
  {
    ghost var lens := Lens(rows);
    j, blockBytes := i, 0;
    while j < |rows|
      invariant i <= j <= |rows|
      invariant blockBytes == Bytes(lens, i, j) <= MAX_BLOCK
      invariant Stop(lens, j, MAX_BLOCK - blockBytes) == Stop(lens, i, MAX_BLOCK)
    {
      var record := rows[j];
      var len := if record.IsNa() || record.len < 0 then 0 else record.len;
      if len > MAX_BLOCK - blockBytes {
        break;
      }
      blockBytes := blockBytes + len;
      j := j + 1;
    }
  }

  /** Copies record k to its place in the block. */
  method CopyRecord(rows: seq<Row>, k: nat, table: RecordTable, block: array<byte>, off: nat,
                    ghost owned: set<array<byte>>, ghost blocks: set<array<byte>>)
    returns (next: nat)
    requires Laid(rows, owned) && block !in owned && k < |rows|
    requires table.Valid() && Laid(table.rows, blocks) && |table.rows| == |rows| && block in blocks
    requires table.rows[k] == NaRow() && Below(table.rows, block, off) && off + Lens(rows)[k] <= block.Length
    modifies table, block
    ensures table.Valid() && table.capacity == old(table.capacity) && Laid(table.rows, blocks)
    ensures |table.rows| == |rows| && table.rows == old(table.rows)[k := table.rows[k]]
    ensures next == off + Lens(rows)[k] && Below(table.rows, block, next)
    ensures RecsOf(table.rows) == old(RecsOf(table.rows))[k := old(RowRec(rows[k]))]
    ensures RecsOf(rows) == old(RecsOf(rows))
  {
    var record := rows[k];
    SourceApart(rows, owned, block);
    assert RowOk(record, owned);
    if record.IsNa() {
      assert RowRec(table.rows[k]) == NA;
      return off;
    }
    if record.len == 0 {
      ClearRow(table, k, EmptyRow(record.enc), blocks);
      return off;
    }
    var bytes := record.ptr.block[record.ptr.off..record.ptr.off + record.len];
    PlaceRow(table, k, block, off, bytes, record.enc, blocks);
    return off + record.len;
  }

  lemma {:induction false} SourceApart(rows: seq<Row>, owned: set<array<byte>>, block: array<byte>)
    requires Laid(rows, owned) && block !in owned
    ensures block !in BlocksOf(rows)
  {
    forall i | 0 <= i < |rows| && rows[i].ptr.In?
      ensures rows[i].ptr.block != block
    {
      assert RowOk(rows[i], owned);
    }
  }

  /** Copies records i to j - 1, end to end, into a block of exactly their size. */
  method CopyBlock(rows: seq<Row>, i: nat, j: nat, table: RecordTable, block: array<byte>,
                   ghost owned: set<array<byte>>, ghost blocks: set<array<byte>>)
    requires i <= j <= |rows| && Bytes(Lens(rows), i, j) == block.Length
    requires Laid(rows, owned) && block !in owned
    requires table.Valid() && Laid(table.rows, blocks) && block in blocks
    requires Copied(table.rows, RecsOf(rows), i) && Below(table.rows, block, 0)
    modifies table, block
    ensures table.Valid() && table.capacity == old(table.capacity) && Laid(table.rows, blocks)
    ensures RecsOf(rows) == old(RecsOf(rows)) && Copied(table.rows, RecsOf(rows), j)
  {
    ghost var recs, lens := RecsOf(rows), Lens(rows);
    var off, k := 0, i;
    while k < j
      invariant i <= k <= j
      invariant table.Valid() && table.capacity == old(table.capacity) && Laid(table.rows, blocks)
      invariant RecsOf(rows) == recs && Copied(table.rows, recs, k)
      invariant off == Bytes(lens, i, k) && Below(table.rows, block, off)
    {
      BytesSplit(lens, i, k + 1, j);
      ghost var before, was := table.rows, RecsOf(table.rows);
      off := CopyRecord(rows, k, table, block, off, owned, blocks);
      CopiedStep(before, was, table.rows, recs, k);
      k := k + 1;
    }
  }

  /** Copies records i to j - 1 when none has bytes. */
  method CopyEmpties(rows: seq<Row>, i: nat, j: nat, table: RecordTable, ghost owned: set<array<byte>>, ghost blocks: set<array<byte>>)
    requires i <= j <= |rows| && Bytes(Lens(rows), i, j) == 0
    requires Laid(rows, owned)
    requires table.Valid() && Laid(table.rows, blocks)
    requires Copied(table.rows, RecsOf(rows), i)
    modifies table
    ensures table.Valid() && table.capacity == old(table.capacity) && Laid(table.rows, blocks)
    ensures Copied(table.rows, RecsOf(rows), j)
  {
    ghost var recs, lens := RecsOf(rows), Lens(rows);
    var k := i;
    while k < j
      invariant i <= k <= j
      invariant table.Valid() && table.capacity == old(table.capacity) && Laid(table.rows, blocks)
      invariant Copied(table.rows, recs, k)
    {
      BytesSplit(lens, i, k, j);
      BytesSplit(lens, k, k + 1, j);
      assert lens[k] == 0 == Bytes(lens, k, k) && RowOk(rows[k], owned);
      ghost var before, was := table.rows, RecsOf(table.rows);
      var record := rows[k];
      if !record.IsNa() && record.len == 0 {
        ClearRow(table, k, EmptyRow(record.enc), blocks);
      } else {
        assert was[k := recs[k]] == was;
      }
      CopiedStep(before, was, table.rows, recs, k);
      k := k + 1;
    }
  }

  /** Opens a slice for a block: nothing that was stored moves. */
  method OpenBlock(out: Store, size: nat) returns (block: array<byte>)
    requires out.Valid()
    modifies out.slices
    ensures out.Valid() && out.records.rows == old(out.records.rows) && out.Contents() == old(out.Contents())
    ensures fresh(block) && block.Length == size && Below(out.records.rows, block, 0)
    ensures |out.slices.nodes| == |old(out.slices.nodes)| + 1 && out.slices.nodes[1..] == old(out.slices.nodes)
    ensures fresh(out.slices.nodes[0]) && out.slices.nodes[0].data == block && block in Owned(out.slices.nodes)
  {
    ghost var was, rows := out.slices.nodes, out.records.rows;
    block := out.slices.PushFront(size);
    OwnedGrows(was, out.slices.nodes);
    LaidGrows(rows, Owned(was), Owned(out.slices.nodes));
    NewBlockBelow(rows, Owned(was), block);
  }

  /** Copies records i to j - 1 into the new Store, in a slice of their own if they have bytes. */
  method PlaceBlock(rows: seq<Row>, i: nat, j: nat, blockBytes: nat, out: Store, ghost owned: set<array<byte>>)
    requires i <= j <= |rows| && blockBytes == Bytes(Lens(rows), i, j)
    requires Laid(rows, owned) && out.Valid() && Copied(out.records.rows, RecsOf(rows), i)
    modifies out.slices, out.records
    ensures out.Valid() && RecsOf(rows) == old(RecsOf(rows)) && Copied(out.records.rows, RecsOf(rows), j)
    ensures if blockBytes == 0 then out.slices.nodes == old(out.slices.nodes) else
              && |out.slices.nodes| == |old(out.slices.nodes)| + 1 && out.slices.nodes[1..] == old(out.slices.nodes)
              && fresh(out.slices.nodes[0]) && fresh(out.slices.nodes[0].data)
              && out.slices.nodes[0].data.Length == blockBytes
  {
    if blockBytes > 0 {
      ghost var recs := RecsOf(rows);
      var block := OpenBlock(out, blockBytes);
      assert RecsOf(rows) == recs;
      CopyBlock(rows, i, j, out.records, block, owned, Owned(out.slices.nodes));
    } else {
      CopyEmpties(rows, i, j, out.records, owned, Owned(out.slices.nodes));
    }
  }

  /** The new Store after the blocks up to record i. */
  ghost predicate Rebuilt(out: Store, recs: seq<Rec>, lens: seq<nat>, i: nat)
    requires i <= |lens|
    reads out, out.slices, out.slices.nodes, out.records, BlocksOf(out.records.rows)
  {
    && out.Valid() && Copied(out.records.rows, recs, i)
    && |out.slices.nodes| + Slices(lens, i) == Slices(lens, 0)
    && Room(out.slices.nodes) == Bytes(lens, 0, i)
    && forall k :: 0 <= k < |out.slices.nodes| ==> 0 < out.slices.nodes[k].data.Length <= MAX_BLOCK
  }

  lemma {:induction false} OneMore(nodes: seq<Slice>, was: seq<Slice>)
    requires |nodes| == |was| + 1 && nodes[1..] == was
    requires forall k :: 0 <= k < |was| ==> 0 < was[k].data.Length <= MAX_BLOCK
    requires 0 < nodes[0].data.Length <= MAX_BLOCK
    ensures Room(nodes) == Room(was) + nodes[0].data.Length
    ensures forall k :: 0 <= k < |nodes| ==> 0 < nodes[k].data.Length <= MAX_BLOCK
    ensures forall k :: 0 < k < |nodes| ==> nodes[k] in was
  {
    forall k | 0 < k < |nodes|
      ensures nodes[k] in was && 0 < nodes[k].data.Length <= MAX_BLOCK
    {
      assert nodes[k] == was[k - 1];
    }
  }

  /** Finds the next block. Nothing changes. */
  method ScanNext(rows: seq<Row>, i: nat, ghost out: Store) returns (j: nat, blockBytes: nat)
    requires i < |rows| && Rebuilt(out, RecsOf(rows), Lens(rows), i)
    ensures i <= j <= |rows| && j == Stop(Lens(rows), i, MAX_BLOCK) && blockBytes == Bytes(Lens(rows), i, j) <= MAX_BLOCK
    ensures RecsOf(rows) == old(RecsOf(rows)) && Rebuilt(out, RecsOf(rows), Lens(rows), i)
  {
    ghost var recs := RecsOf(rows);
    j, blockBytes := ScanBlock(rows, i);
    assert RecsOf(rows) == recs;
  }

  /** Places the block of records i to j - 1. */
  method PlaceNext(rows: seq<Row>, i: nat, j: nat, blockBytes: nat, out: Store, ghost owned: set<array<byte>>)
    requires i <= j <= |rows| && blockBytes == Bytes(Lens(rows), i, j) <= MAX_BLOCK && Laid(rows, owned)
    requires Rebuilt(out, RecsOf(rows), Lens(rows), i)
    requires Slices(Lens(rows), i) == (if blockBytes > 0 then 1 else 0) + Slices(Lens(rows), j)
    modifies out.slices, out.records
    ensures RecsOf(rows) == old(RecsOf(rows)) && Rebuilt(out, RecsOf(rows), Lens(rows), j)
    ensures forall k :: 0 <= k < |out.slices.nodes| ==>
              out.slices.nodes[k] in old(out.slices.nodes) || (fresh(out.slices.nodes[k]) && fresh(out.slices.nodes[k].data))
  {
    ghost var nodes := out.slices.nodes;
    BytesSplit(Lens(rows), 0, i, j);
    PlaceBlock(rows, i, j, blockBytes, out, owned);
    if blockBytes > 0 {
      OneMore(out.slices.nodes, nodes);
    }
  }

  /** Adds the block that starts at record i. */
  method RebuildStep(rows: seq<Row>, i: nat, out: Store, ghost owned: set<array<byte>>) returns (next: nat)
    requires i < |rows| && Laid(rows, owned) && Rebuilt(out, RecsOf(rows), Lens(rows), i)
    modifies out.slices, out.records
    ensures i < next <= |rows| && RecsOf(rows) == old(RecsOf(rows)) && Rebuilt(out, RecsOf(rows), Lens(rows), next)
    ensures forall k :: 0 <= k < |out.slices.nodes| ==>
              out.slices.nodes[k] in old(out.slices.nodes) || (fresh(out.slices.nodes[k]) && fresh(out.slices.nodes[k].data))
  {
    LensSmall(rows, owned);
    var j, blockBytes := ScanNext(rows, i, out);
    SlicesAt(Lens(rows), i, j);
    PlaceNext(rows, i, j, blockBytes, out, owned);
    if j > i {
      next := j;
    } else {
      assert false;
    }
  }

  /** Copies every record of a table into a new Store. The table's own bytes are
      not touched. Its slices hold exactly the live bytes. */
  method RebuildStore(source: RecordTable, ghost owned: set<array<byte>>) returns (out: Store)
    requires source.Valid() && Laid(source.rows, owned)
    ensures fresh(out) && fresh(out.slices) && fresh(out.records) && out.Valid()
    ensures forall k :: 0 <= k < |out.slices.nodes| ==> fresh(out.slices.nodes[k]) && fresh(out.slices.nodes[k].data)
    ensures RecsOf(source.rows) == old(RecsOf(source.rows)) && out.Contents() == RecsOf(source.rows)
    ensures |out.slices.nodes| == Slices(Lens(source.rows), 0)
    ensures Room(out.slices.nodes) == Bytes(Lens(source.rows), 0, |source.rows|) == Total(RecsOf(source.rows))
    ensures forall k :: 0 <= k < |out.slices.nodes| ==> 0 < out.slices.nodes[k].data.Length <= 0xffff_ffff
  {
    var rows := source.rows;
    ghost var recs, lens := RecsOf(rows), Lens(rows);
    LensAre(rows, owned, |rows|);
    out := new Store(|rows|, 0);
    var i := 0;
    while i < |rows|
      invariant i <= |rows| && fresh(out.slices) && fresh(out.records)
      invariant RecsOf(rows) == recs && Rebuilt(out, recs, lens, i)
      invariant forall k :: 0 <= k < |out.slices.nodes| ==> fresh(out.slices.nodes[k]) && fresh(out.slices.nodes[k].data)
    {
      i := RebuildStep(rows, i, out, owned);
    }
    assert recs[..|rows|] + seq(0, _ => NA) == recs;
  }

  /** Replaces a Store by its rebuild: the same records, in as few slices as can
      be, and every old slice given back. */
  method Compact(store: Store)
    requires store.Valid()
    modifies store.slices, store.slices.nodes, store.records
    ensures store.Valid() && store.Contents() == old(store.Contents())
    ensures |store.slices.nodes| == Slices(old(Lens(store.records.rows)), 0)
    ensures Room(store.slices.nodes) == Total(store.Contents())
    ensures forall k :: 0 <= k < |store.slices.nodes| ==> fresh(store.slices.nodes[k]) && fresh(store.slices.nodes[k].data)
    ensures forall k :: 0 <= k < |old(store.slices.nodes)| ==> old(store.slices.nodes)[k].freed
  {
    var next := RebuildStore(store.records, Owned(store.slices.nodes));
    store.MoveAssign(next);
  }

  /** A change to a Store. */
  datatype Change = Put(idx: nat, value: View) | Shrink {
    ghost predicate Readable() {
      Put? ==> value.Readable()
    }

    /** What it does to a plain list of records. */
    function Apply(recs: seq<Rec>): seq<Rec> {
      if Put? && idx < |recs| then recs[idx := value.Stored()] else recs
    }
  }

  function ApplyAll(recs: seq<Rec>, changes: seq<Change>): seq<Rec> {
    if changes == [] then recs else changes[|changes| - 1].Apply(ApplyAll(recs, changes[..|changes| - 1]))
  }

  /** What a change may touch is among these. */
  ghost predicate Holds(own: set<object>, store: Store)
    reads store.slices
  {
    && store.slices in own && store.records in own
    && forall m :: 0 <= m < |store.slices.nodes| ==> store.slices.nodes[m] in own && store.slices.nodes[m].data in own
  }

  /** What a Store owns, once it has slices of its own or new ones only. */
  ghost function Everything(own: set<object>, store: Store): (all: set<object>)
    reads store.slices
    ensures own <= all
  {
    var nodes: set<object>, data: set<object> := (set x | x in store.slices.nodes), Owned(store.slices.nodes);
    own + nodes + data
  }

  /** One change does to the Store what it does to a plain list. */
  method MakeChange(store: Store, c: Change, ghost own: set<object>) returns (ghost owned: set<object>)
    requires store.Valid() && c.Readable() && Holds(own, store)
    modifies own
    ensures store.Valid() && store.Contents() == c.Apply(old(store.Contents()))
    ensures Holds(owned, store) && own <= owned && fresh(owned - own)
  {
    if c.Put? {
      var ok := store.Assign(c.idx, c.value);
    } else {
      Compact(store);
    }
    owned := Everything(own, store);
  }

  /** Any run of assignments and compactions: the Store stays laid out, its live
      records in pairwise disjoint places it owns, and holds what a plain list
      given the same changes would hold. */
  method RunChanges(store: Store, changes: seq<Change>)
    requires store.Valid() && forall k :: 0 <= k < |changes| ==> changes[k].Readable()
    modifies store.slices, store.slices.nodes, store.records, Owned(store.slices.nodes)
    ensures store.Valid() && store.Contents() == ApplyAll(old(store.Contents()), changes)
  {
    ghost var recs, all := store.Contents(), Everything({store.slices, store.records}, store);
    ghost var own := all;
    var k := 0;
    while k < |changes|
      invariant k <= |changes| && store.Valid() && store.Contents() == ApplyAll(recs, changes[..k])
      invariant Holds(own, store) && all <= own && fresh(own - all)
    {
      assert changes[..k + 1][..k] == changes[..k];
      own := MakeChange(store, changes[k], own);
      k := k + 1;
    }
    assert changes[..k] == changes;
  }
}
