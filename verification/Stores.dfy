/** The charvec Store: a table of records that point into the slices it owns. */
module Stores {
  import opened Records
  import opened RStrings
  import opened Chain

  const MAX_CAPACITY := XLEN_MAX

  /** A record's pointer: null, the shared empty byte, or a place in a slice. */
  datatype Ptr = Null | EmptyByte | In(block: array<byte>, off: nat)

  /** One entry of the record table. */
  datatype Row = Row(ptr: Ptr, len: int, enc: byte) {
    predicate IsNa() {
      ptr.Null? || len == NA_INTEGER || enc == NA_TAG
    }
  }

  /** The entry that set_na writes. */
  function NaRow(): Row {
    Row(Null, NA_INTEGER, NA_TAG)
  }

  /** The entry of an empty string. */
  function EmptyRow(enc: byte): Row {
    Row(EmptyByte, 0, enc)
  }

  /** NA, an empty string, or bytes inside one of the blocks. */
  ghost predicate RowOk(r: Row, blocks: set<array<byte>>) {
    || r == NaRow()
    || (r.ptr.EmptyByte? && r.len == 0 && r.enc != NA_TAG)
    || (r.ptr.In? && 0 < r.len <= STRING_MAX && r.enc != NA_TAG
        && r.ptr.block in blocks && r.ptr.off + r.len <= r.ptr.block.Length)
  }

  /** Two entries share no byte. */
  ghost predicate NoOverlap(r: Row, q: Row) {
    r.ptr.In? && q.ptr.In? && r.ptr.block == q.ptr.block ==>
      r.ptr.off + r.len <= q.ptr.off || q.ptr.off + q.len <= r.ptr.off
  }

  /** Every entry is sound, and no two share a byte. */
  ghost predicate Laid(rows: seq<Row>, blocks: set<array<byte>>) {
    && (forall i :: 0 <= i < |rows| ==> RowOk(rows[i], blocks))
    && (forall i, j :: 0 <= i < j < |rows| ==> NoOverlap(rows[i], rows[j]))
  }

  function RowRec(r: Row): Rec
    reads if r.ptr.In? then {r.ptr.block} else {}
  {
    if r.IsNa() then NA
    else if r.ptr.In? && 0 <= r.len && r.ptr.off + r.len <= r.ptr.block.Length then
      Str(r.ptr.block[r.ptr.off..r.ptr.off + r.len], r.enc)
    else Str([], r.enc)
  }

  ghost function BlocksOf(rows: seq<Row>): set<array<byte>> {
    set i | 0 <= i < |rows| && rows[i].ptr.In? :: rows[i].ptr.block
  }

  /** The records the table denotes. */
  function RecsOf(rows: seq<Row>): (recs: seq<Rec>)
    reads BlocksOf(rows)
    ensures |recs| == |rows|
  {
    seq(|rows|, i requires 0 <= i < |rows| reads BlocksOf(rows) => RowRec(rows[i]))
  }

  ghost function Owned(nodes: seq<Slice>): set<array<byte>> {
    set i | 0 <= i < |nodes| :: nodes[i].data
  }

  lemma {:induction false} LaidGrows(rows: seq<Row>, blocks: set<array<byte>>, more: set<array<byte>>)
    requires Laid(rows, blocks) && blocks <= more
    ensures Laid(rows, more)
  {
  }

  /** Replacing one entry by a sound one that meets no other keeps the table laid out. */
  lemma {:induction false} LaidUpdate(rows: seq<Row>, blocks: set<array<byte>>, i: nat, r: Row)
    requires Laid(rows, blocks) && i < |rows| && RowOk(r, blocks)
    requires forall j :: 0 <= j < |rows| && j != i ==> NoOverlap(r, rows[j])
    ensures Laid(rows[i := r], blocks)
  {
    var rows' := rows[i := r];
    forall j, k | 0 <= j < k < |rows'|
      ensures NoOverlap(rows'[j], rows'[k])
    {
      if j == i {
        assert NoOverlap(r, rows[k]);
      } else if k == i {
        assert NoOverlap(r, rows[j]);
      } else {
        assert NoOverlap(rows[j], rows[k]);
      }
    }
  }

  /** No entry points into the block at or after off. */
  ghost predicate Below(rows: seq<Row>, block: array<byte>, off: nat) {
    forall m :: 0 <= m < |rows| && rows[m].ptr.In? && rows[m].ptr.block == block ==> rows[m].ptr.off + rows[m].len <= off
  }

  lemma {:induction false} NewBlockBelow(rows: seq<Row>, blocks: set<array<byte>>, block: array<byte>)
    requires Laid(rows, blocks) && block !in blocks
    ensures Below(rows, block, 0)
  {
    forall m | 0 <= m < |rows| && rows[m].ptr.In?
      ensures rows[m].ptr.block != block
    {
      assert RowOk(rows[m], blocks);
    }
  }

  /** Copies bytes into a block and touches nothing else in it. */
  method WriteBytes(block: array<byte>, off: nat, bytes: seq<byte>)
    requires off + |bytes| <= block.Length
    modifies block
    ensures block[off..off + |bytes|] == bytes
    ensures forall k :: 0 <= k < block.Length && !(off <= k < off + |bytes|) ==> block[k] == old(block[k])
  {
    forall k | 0 <= k < |bytes| {
      block[off + k] := bytes[k];
    }
  }

  /** Writes the bytes of entry i of a laid-out table: no other record changes. */
  method WriteRow(block: array<byte>, off: nat, bytes: seq<byte>, ghost rows: seq<Row>, ghost blocks: set<array<byte>>, ghost i: nat)
    requires Laid(rows, blocks) && i < |rows| && rows[i].ptr == In(block, off) && rows[i].len == |bytes|
    modifies block
    ensures RecsOf(rows) == old(RecsOf(rows))[i := Str(bytes, rows[i].enc)]
  {
    ghost var was := RecsOf(rows);
    assert RowOk(rows[i], blocks);
    WriteBytes(block, off, bytes);
    forall j | 0 <= j < |rows| && j != i
      ensures RowRec(rows[j]) == was[j]
    {
      assert RowOk(rows[j], blocks);
      if i < j {
        assert NoOverlap(rows[i], rows[j]);
      } else {
        assert NoOverlap(rows[j], rows[i]);
      }
    }
    assert RowRec(rows[i]) == Str(bytes, rows[i].enc);
  }

  /** The record table. Its three parallel arrays are one sequence of entries. */
  class RecordTable {
    var rows: seq<Row>
    var capacity: nat

    ghost predicate Valid()
      reads this
    {
      |rows| <= capacity <= MAX_CAPACITY
    }

    /** A table of n NA records. */
    constructor (n: nat)
      requires n <= MAX_CAPACITY
      ensures Valid() && rows == seq(n, _ => NaRow()) && capacity == n
    {
      rows, capacity := seq(n, _ => NaRow()), n;
    }

    /** Makes room for at least n records, if a table may be that large. */
    method Reserve(n: nat) returns (ok: bool)
      requires Valid()
      modifies this
      ensures Valid() && rows == old(rows)
      ensures ok <==> n <= capacity
      ensures capacity == if old(capacity) < n <= MAX_CAPACITY then n else old(capacity)
    {
      if n <= capacity {
        return true;
      }
      if n > MAX_CAPACITY {
        return false;
      }
      capacity := n;
      return true;
    }

    /** Makes room for one more record, by doubling. It fails only when the table is as large as any may be. */
    method ReserveForAppend() returns (ok: bool)
      requires Valid()
      modifies this
      ensures Valid() && rows == old(rows)
      ensures ok <==> |rows| < capacity
      ensures !ok <==> |rows| == MAX_CAPACITY
      ensures |rows| < old(capacity) ==> capacity == old(capacity)
      ensures |rows| == old(capacity) > 0 ==> capacity == if 2 * old(capacity) < MAX_CAPACITY then 2 * old(capacity) else MAX_CAPACITY
      ensures ok ==> capacity <= 1 || capacity <= 2 * old(capacity)
    {
      if |rows| < capacity {
        return true;
      }
      var next := if capacity == 0 then 1 else if capacity > MAX_CAPACITY / 2 then MAX_CAPACITY else capacity * 2;
      if next <= capacity {
        return false;
      }
      ok := Reserve(next);
    }

    /** Appends a record where room was made for it. */
    method PushBackReserved(r: Row)
      requires Valid() && |rows| < capacity
      modifies this
      ensures Valid() && rows == old(rows) + [r] && capacity == old(capacity)
    {
      rows := rows + [r];
    }

    method Set(i: nat, r: Row)
      requires Valid() && i < |rows|
      modifies this
      ensures Valid() && rows == old(rows)[i := r] && capacity == old(capacity)
    {
      rows := rows[i := r];
    }

    /** Takes over another table. */
    method MoveAssign(other: RecordTable)
      requires Valid() && other.Valid()
      modifies this, other
      ensures Valid() && rows == old(other.rows) && capacity == old(other.capacity)
      ensures this != other ==> other.Valid() && other.rows == []
    {
      if this != other {
        rows, capacity := other.rows, other.capacity;
        other.rows, other.capacity := [], 0;
      }
    }
  }

  /** A value to store: a view of some bytes. */
  datatype View = View(ptr: Option<seq<byte>>, len: int, enc: byte) {
    predicate IsNa() {
      ptr.None? || len == NA_INTEGER || enc == NA_TAG
    }

    ghost predicate Readable() {
      !IsNa() ==> 0 <= len <= STRING_MAX && len <= |ptr.value|
    }

    /** The record a plain vector would hold. */
    function Rec(): Rec {
      if IsNa() then NA else Str(if 0 <= len <= |ptr.value| then ptr.value[..len] else [], enc)
    }

    /** The record that assignment stores. */
    function Stored(): Rec {
      if enc == NA_TAG then NA else if IsNa() then Str([], enc) else Rec()
    }
  }

  /** charsxp_to_view. */
  function StringView(x: RString): View {
    if x.NaString? then View(None, NA_INTEGER, NA_TAG) else View(Some(x.bytes), |x.bytes|, Classify(x.bytes, x.mark))
  }

  /** What a view says: NA when its pointer is null, its length is NA_INTEGER or its
      tag is NA's, and otherwise so many bytes from its pointer. */
  lemma {:induction false} ViewSays(v: View)
    ensures v.ptr.None? || v.len == -0x8000_0000 || v.enc == 255 ==> v.Readable() && v.Rec() == NA
    ensures v.ptr.Some? && v.len != -0x8000_0000 && v.enc != 255 && 0 <= v.len <= |v.ptr.value| && v.len <= 0x7fff_ffff ==>
              v.Readable() && v.Rec() == Str(v.ptr.value[..v.len], v.enc)
  {
  }

  /** Assignment stores the value, unless the value is NA by its pointer or its
      length while its tag is not: then it stores an empty string. */
  lemma {:induction false} StoredIsRec(v: View)
    requires v.Readable()
    ensures v.Stored() == v.Rec() <==> !(v.IsNa() && v.enc != NA_TAG)
  {
  }

  /** Such a value: a null pointer with a UTF-8 tag is NA, and is stored as an empty string. */
  lemma {:induction false} NullStoredEmpty()
    ensures var v := View(None, 0, UTF8); v.Readable() && v.Rec() == NA && v.Stored() == Str([], UTF8)
  {
  }

  class Store {
    const slices: SliceChain
    const records: RecordTable

    ghost predicate Valid()
      reads this, slices, slices.nodes, records
    {
      slices.Valid() && records.Valid() && Laid(records.rows, Owned(slices.nodes))
    }

    /** The record list the Store stands for. */
    ghost function Contents(): (recs: seq<Rec>)
      reads this, records, BlocksOf(records.rows)
      ensures |recs| == |records.rows|
    {
      RecsOf(records.rows)
    }

    /** A Store of n NA records, with a first slice if one is asked for. */
    constructor (n: nat, initialSliceBytes: nat)
      requires n <= MAX_CAPACITY
      ensures Valid() && fresh(slices) && fresh(records)
      ensures records.rows == seq(n, _ => NaRow()) && Contents() == seq(n, _ => NA)
      ensures if initialSliceBytes == 0 then slices.nodes == [] else
                |slices.nodes| == 1 && fresh(slices.nodes[0]) && fresh(slices.nodes[0].data)
                && slices.nodes[0].data.Length == initialSliceBytes
    {
      slices := new SliceChain();
      records := new RecordTable(n);
      new;
      if initialSliceBytes > 0 {
        var block := slices.PushFront(initialSliceBytes);
      }
      assert RecsOf(records.rows) == seq(n, _ => NA);
    }

    /** Takes over another Store. */
    constructor Move(other: Store)
      requires other.Valid()
      modifies other.slices, other.records
      ensures Valid() && fresh(slices) && fresh(records)
      ensures slices.nodes == old(other.slices.nodes) && records.rows == old(other.records.rows) && Contents() == old(other.Contents())
      ensures other.Valid() && other.slices.nodes == [] && other.records.rows == []
    {
      slices := new SliceChain.Move(other.slices);
      records := new RecordTable(0);
      new;
      records.MoveAssign(other.records);
    }

    /** Takes over another Store and gives its own slices back. Only the chain and
        the table of this one need be sound. */
    method MoveAssign(other: Store)
      requires slices.Valid() && records.Valid() && other.Valid()
      requires slices != other.slices && records != other.records && Apart(slices.nodes, other.slices.nodes)
      modifies slices, slices.nodes, records, other.slices, other.records
      ensures Valid() && slices.nodes == old(other.slices.nodes) && records.rows == old(other.records.rows)
      ensures records.capacity == old(other.records.capacity) && Contents() == old(other.Contents())
      ensures forall k :: 0 <= k < |old(slices.nodes)| ==> old(slices.nodes)[k].freed
    {
      ghost var rows, recs := other.records.rows, other.Contents();
      slices.MoveAssign(other.slices);
      records.MoveAssign(other.records);
      assert RecsOf(rows) == recs;
    }

    /** Makes entry idx ready for len bytes and returns where they go: in place
        when the entry has room for them, else in a slice of their own. */
    method Reserve(idx: nat, len: nat, enc: byte) returns (ok: bool, dest: Ptr)
      requires Valid()
      modifies records, slices
      ensures Valid()
      ensures ok <==> len <= STRING_MAX && idx < |old(records.rows)|
      ensures !ok ==> records.rows == old(records.rows) && slices.nodes == old(slices.nodes)
      ensures ok ==> |records.rows| == |old(records.rows)| && records.rows == old(records.rows)[idx := records.rows[idx]]
      ensures ok && enc == NA_TAG ==> dest == Null && records.rows[idx] == NaRow()
      ensures ok && enc != NA_TAG && len == 0 ==> dest == EmptyByte && records.rows[idx] == EmptyRow(enc)
      ensures ok && enc != NA_TAG && len > 0 ==> dest.In? && records.rows[idx] == Row(dest, len, enc)
      ensures ok && enc != NA_TAG && len > 0 ==>
                if old(records.rows)[idx].len >= len then
                  dest == old(records.rows)[idx].ptr && slices.nodes == old(slices.nodes)
                else
                  fresh(dest.block) && |slices.nodes| == |old(slices.nodes)| + 1 && slices.nodes[1..] == old(slices.nodes)
      ensures ok && (enc == NA_TAG || len == 0) ==> slices.nodes == old(slices.nodes)
      ensures forall m :: 0 <= m < |slices.nodes| ==>
                slices.nodes[m] in old(slices.nodes) || (fresh(slices.nodes[m]) && fresh(slices.nodes[m].data))
    {
      dest := Null;
      if len > STRING_MAX || idx >= |records.rows| {
        return false, Null;
      }
      ghost var rows, blocks := records.rows, Owned(slices.nodes);
      var current := records.rows[idx];
      assert RowOk(current, blocks);
      if enc == NA_TAG {
        records.Set(idx, NaRow());
        LaidUpdate(rows, blocks, idx, NaRow());
        return true, Null;
      }
      if len == 0 {
        records.Set(idx, EmptyRow(enc));
        LaidUpdate(rows, blocks, idx, EmptyRow(enc));
        return true, EmptyByte;
      }
      if !current.IsNa() && current.len >= len {
        records.Set(idx, Row(current.ptr, len, enc));
        ShrinkNoOverlap(rows, blocks, idx, Row(current.ptr, len, enc));
        LaidUpdate(rows, blocks, idx, Row(current.ptr, len, enc));
        return true, current.ptr;
      }
      var block := slices.PushFront(len);
      OwnedGrows(old(slices.nodes), slices.nodes);
      records.Set(idx, Row(In(block, 0), len, enc));
      LaidGrows(rows, blocks, Owned(slices.nodes));
      FreshNoOverlap(rows, blocks, Row(In(block, 0), len, enc));
      LaidUpdate(rows, Owned(slices.nodes), idx, Row(In(block, 0), len, enc));
      return true, In(block, 0);
    }

    /** Stores a value in entry idx. Every other record, and every other entry, stays as it was. */
    method Assign(idx: nat, value: View) returns (ok: bool)
      requires Valid() && value.Readable()
      modifies records, slices, Owned(slices.nodes)
      ensures Valid()
      ensures ok <==> idx < |old(records.rows)|
      ensures Contents() == if ok then old(Contents())[idx := value.Stored()] else old(Contents())
      ensures |records.rows| == |old(records.rows)|
      ensures forall j :: 0 <= j < |records.rows| && j != idx ==> records.rows[j] == old(records.rows)[j]
      ensures forall m :: 0 <= m < |slices.nodes| ==>
                slices.nodes[m] in old(slices.nodes) || (fresh(slices.nodes[m]) && fresh(slices.nodes[m].data))
    {
      ghost var was := Contents();
      ghost var before := records.rows;
      var len := if value.IsNa() then 0 else value.len;
      var dest;
      ok, dest := Reserve(idx, len, value.enc);
      if !ok {
        return;
      }
      ghost var rows := records.rows;
      UpdatedRecs(before, rows, idx);
      if dest != Null && len > 0 {
        WriteRow(dest.block, dest.off, value.ptr.value[..len], rows, Owned(slices.nodes), idx);
        assert Contents() == was[idx := value.Stored()];
      } else {
        assert Contents() == was[idx := value.Stored()];
      }
    }
  }

  /** Changing one entry changes one record. */
  lemma {:induction false} UpdatedRecs(before: seq<Row>, rows: seq<Row>, idx: nat)
    requires idx < |before| == |rows| && rows == before[idx := rows[idx]]
    ensures RecsOf(rows) == RecsOf(before)[idx := RowRec(rows[idx])]
  {
  }

  lemma {:induction false} ShrinkNoOverlap(rows: seq<Row>, blocks: set<array<byte>>, i: nat, r: Row)
    requires Laid(rows, blocks) && i < |rows| && r.ptr == rows[i].ptr && 0 <= r.len <= rows[i].len
    ensures forall j :: 0 <= j < |rows| && j != i ==> NoOverlap(r, rows[j])
  {
    forall j | 0 <= j < |rows| && j != i
      ensures NoOverlap(r, rows[j])
    {
      if i < j {
        assert NoOverlap(rows[i], rows[j]);
      } else {
        assert NoOverlap(rows[j], rows[i]);
      }
    }
  }

  lemma {:induction false} FreshNoOverlap(rows: seq<Row>, blocks: set<array<byte>>, r: Row)
    requires Laid(rows, blocks) && r.ptr.In? && r.ptr.block !in blocks
    ensures forall j :: 0 <= j < |rows| ==> NoOverlap(r, rows[j])
  {
    forall j | 0 <= j < |rows|
      ensures NoOverlap(r, rows[j])
    {
      assert RowOk(rows[j], blocks);
    }
  }

  lemma {:induction false} OwnedGrows(nodes: seq<Slice>, more: seq<Slice>)
    requires |more| == |nodes| + 1 && more[1..] == nodes
    ensures Owned(more) == Owned(nodes) + {more[0].data}
  {
    forall b
      ensures b in Owned(more) <==> b in Owned(nodes) + {more[0].data}
    {
      if b in Owned(nodes) {
        var i :| 0 <= i < |nodes| && nodes[i].data == b;
        assert more[i + 1].data == b;
      }
      if b in Owned(more) {
        var i :| 0 <= i < |more| && more[i].data == b;
        if i > 0 {
          assert nodes[i - 1].data == b;
        }
      }
    }
  }

  /** Points entry k at bytes freshly written where no other entry points. */
  method PlaceRow(table: RecordTable, k: nat, block: array<byte>, off: nat, bytes: seq<byte>, enc: byte,
                  ghost blocks: set<array<byte>>)
    requires table.Valid() && Laid(table.rows, blocks) && k < |table.rows|
    requires block in blocks && off + |bytes| <= block.Length && 0 < |bytes| <= STRING_MAX && enc != NA_TAG
    requires forall j :: 0 <= j < |table.rows| && j != k ==> NoOverlap(Row(In(block, off), |bytes|, enc), table.rows[j])
    modifies table, block
    ensures table.Valid() && table.capacity == old(table.capacity)
    ensures table.rows == old(table.rows)[k := Row(In(block, off), |bytes|, enc)] && Laid(table.rows, blocks)
    ensures RecsOf(table.rows) == old(RecsOf(table.rows))[k := Str(bytes, enc)]
  {
    ghost var before, was := table.rows, RecsOf(table.rows);
    var row := Row(In(block, off), |bytes|, enc);
    LaidUpdate(before, blocks, k, row);
    table.Set(k, row);
    UpdatedRecs(before, table.rows, k);
    WriteRow(block, off, bytes, table.rows, blocks, k);
  }

  /** Gives entry k no bytes: NA or an empty string. */
  method ClearRow(table: RecordTable, k: nat, r: Row, ghost blocks: set<array<byte>>)
    requires table.Valid() && Laid(table.rows, blocks) && k < |table.rows|
    requires r == NaRow() || (r.ptr.EmptyByte? && r.len == 0 && r.enc != NA_TAG)
    modifies table
    ensures table.Valid() && table.capacity == old(table.capacity)
    ensures table.rows == old(table.rows)[k := r] && Laid(table.rows, blocks)
    ensures RecsOf(table.rows) == old(RecsOf(table.rows))[k := if r == NaRow() then NA else Str([], r.enc)]
  {
    ghost var before := table.rows;
    LaidUpdate(before, blocks, k, r);
    table.Set(k, r);
    UpdatedRecs(before, table.rows, k);
  }
}
