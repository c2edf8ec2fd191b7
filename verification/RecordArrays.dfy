/** The record table as it is stored: three parallel arrays that grow by copying. */
module RecordArrays {
  import opened Records
  import opened Stores

  /** A tag, as the table stores it. */
  datatype Enc = Enc(value: byte)

  /** The pointers, lengths and tags of so many records. */
  class Table {
    var ptrs: array?<Ptr>
    var lens: array?<int>
    var encs: array?<Enc>
    var length: nat
    var capacity: nat
    /** The records that growing has copied so far. */
    ghost var copied: nat

    ghost predicate Valid()
      reads this
    {
      && length <= capacity <= MAX_CAPACITY
      && if capacity == 0 then ptrs == null && lens == null && encs == null
         else ptrs != null && lens != null && encs != null && ptrs.Length == lens.Length == encs.Length == capacity
    }

    /** The table and its arrays. */
    ghost function Footprint(): set<object>
      reads this
    {
      {this} + (if ptrs == null then {} else {ptrs}) + (if lens == null then {} else {lens}) + if encs == null then {} else {encs}
    }

    /** The table of entries that the arrays stand for. */
    ghost function Entries(): (rows: seq<Row>)
      requires Valid()
      reads this, ptrs, lens, encs
      ensures |rows| == length
    {
      seq(length, i requires 0 <= i < length && Valid() reads this, ptrs, lens, encs => Row(ptrs[i], lens[i], encs[i].value))
    }

    constructor Empty()
      ensures Valid() && Entries() == [] && capacity == 0 && copied == 0
    {
      ptrs, lens, encs := null, null, null;
      length, capacity := 0, 0;
      copied := 0;
    }

    /** Copies the entries into larger arrays. */
    method Grow(n: nat)
      requires Valid() && capacity < n <= MAX_CAPACITY
      modifies this
      ensures Valid() && Entries() == old(Entries()) && capacity == n && copied == old(copied) + length
      ensures fresh(ptrs) && fresh(lens) && fresh(encs)
    {
      var ps, ls, es := new Ptr[n](_ => Null), new int[n](_ => 0), new Enc[n](_ => Enc(0));
      if length > 0 {
        CopyFirst(ptrs, ps, length);
        CopyFirst(lens, ls, length);
        CopyFirst(encs, es, length);
      }
      ptrs, lens, encs, capacity := ps, ls, es, n;
      copied := copied + length;
    }

    /** Makes room for at least n records, unless no table may be that large. */
    method Reserve(n: nat) returns (ok: bool)
      requires Valid()
      modifies this
      ensures Valid() && Entries() == old(Entries()) && (ok <==> n <= MAX_CAPACITY)
      ensures capacity == if old(capacity) < n <= MAX_CAPACITY then n else old(capacity)
      ensures copied == old(copied) + if old(capacity) < n <= MAX_CAPACITY then length else 0
      ensures fresh(Footprint() - old(Footprint()))
    {
      if n <= capacity {
        return true;
      }
      if n > MAX_CAPACITY {
        return false;
      }
      Grow(n);
      ok := true;
    }

    /** Makes room for one more record, by doubling. It fails only when the table is as large as any may be. */
    method ReserveForAppend() returns (ok: bool)
      requires Valid()
      modifies this
      ensures Valid() && Entries() == old(Entries())
      ensures ok <==> length < capacity
      ensures !ok <==> length == MAX_CAPACITY
      ensures capacity == NextCapacity(length, old(capacity))
      ensures copied == old(copied) + if length == old(capacity) < MAX_CAPACITY then length else 0
      ensures fresh(Footprint() - old(Footprint()))
    {
      if length < capacity {
        return true;
      }
      var next := if capacity == 0 then 1 else if capacity > MAX_CAPACITY / 2 then MAX_CAPACITY else capacity * 2;
      if next <= capacity {
        return false;
      }
      ok := Reserve(next);
    }

    /** Writes the three parts of one slot. */
    method WriteSlot(i: nat, r: Row)
      requires Valid() && i < capacity
      modifies ptrs, lens, encs
      ensures ptrs[i] == r.ptr && lens[i] == r.len && encs[i].value == r.enc
      ensures forall j :: 0 <= j < capacity && j != i ==> ptrs[j] == old(ptrs[j]) && lens[j] == old(lens[j]) && encs[j] == old(encs[j])
    {
      ptrs[i] := r.ptr;
      lens[i] := r.len;
      encs[i] := Enc(r.enc);
    }

    method Set(i: nat, r: Row)
      requires Valid() && i < length
      modifies ptrs, lens, encs
      ensures Valid() && Entries() == old(Entries())[i := r]
    {
      WriteSlot(i, r);
    }

    /** Adds a record where room was made for it. */
    method PushBackReserved(r: Row)
      requires Valid() && length < capacity
      modifies this`length, ptrs, lens, encs
      ensures Valid() && Entries() == old(Entries()) + [r]
    {
      WriteSlot(length, r);
      length := length + 1;
    }

    method PushBack(r: Row) returns (ok: bool)
      requires Valid()
      modifies this, ptrs, lens, encs
      ensures Valid() && (ok <==> old(length) < MAX_CAPACITY)
      ensures Entries() == if ok then old(Entries()) + [r] else old(Entries())
      ensures capacity == NextCapacity(old(length), old(capacity))
      ensures copied == old(copied) + if old(length) == old(capacity) < MAX_CAPACITY then old(length) else 0
      ensures fresh(Footprint() - old(Footprint()))
    {
      ok := ReserveForAppend();
      if ok {
        PushBackReserved(r);
      }
    }

    /** A copy, with room for as many records and arrays of its own. */
    constructor Copy(other: Table)
      requires other.Valid()
      ensures Valid() && Entries() == other.Entries() && capacity == other.capacity
      ensures capacity > 0 ==> fresh(ptrs) && fresh(lens) && fresh(encs)
    {
      ptrs, lens, encs := null, null, null;
      length, capacity := 0, 0;
      new;
      var ok := Reserve(other.capacity);
      if other.length > 0 {
        CopyFirst(other.ptrs, ptrs, other.length);
        CopyFirst(other.lens, lens, other.length);
        CopyFirst(other.encs, encs, other.length);
      }
      length := other.length;
    }

    /** Takes over another table's arrays. */
    constructor Move(other: Table)
      requires other.Valid()
      modifies other
      ensures Valid() && Entries() == old(other.Entries()) && capacity == old(other.capacity)
      ensures other.Valid() && other.Entries() == [] && other.capacity == 0
    {
      ptrs, lens, encs := other.ptrs, other.lens, other.encs;
      length, capacity := other.length, other.capacity;
      new;
      other.ptrs, other.lens, other.encs := null, null, null;
      other.length, other.capacity := 0, 0;
    }

    /** Takes over another table's arrays, unless it is this one. */
    method MoveAssign(other: Table)
      requires Valid() && other.Valid()
      modifies this, other
      ensures Valid() && Entries() == old(other.Entries()) && capacity == old(other.capacity)
      ensures this != other ==> other.Valid() && other.Entries() == [] && other.capacity == 0
      ensures ptrs == old(other.ptrs) && lens == old(other.lens) && encs == old(other.encs)
    {
      if this != other {
        ptrs, lens, encs := other.ptrs, other.lens, other.encs;
        length, capacity := other.length, other.capacity;
        other.ptrs, other.lens, other.encs := null, null, null;
        other.length, other.capacity := 0, 0;
      }
    }

    /** Becomes a copy of another table, which keeps its own arrays. */
    method CopyAssign(other: Table)
      requires Valid() && other.Valid()
      modifies this
      ensures Valid() && Entries() == old(other.Entries()) && capacity == old(other.capacity)
      ensures other.Valid() && other.Entries() == old(other.Entries())
      ensures capacity > 0 ==> fresh(ptrs) && fresh(lens) && fresh(encs)
    {
      var tmp := new Table.Copy(other);
      MoveAssign(tmp);
    }
  }

  /** The capacity of a table once there is room for one more record, if there can be. */
  function NextCapacity(length: nat, capacity: nat): nat {
    if length < capacity then capacity
    else if capacity == 0 then 1
    else if 2 * capacity < MAX_CAPACITY then 2 * capacity
    else MAX_CAPACITY
  }

  method CopyFirst<T>(src: array<T>, dst: array<T>, n: nat)
    requires n <= src.Length && n <= dst.Length && src != dst
    modifies dst
    ensures forall i :: 0 <= i < n ==> dst[i] == src[i]
  {
    forall i | 0 <= i < n {
      dst[i] := src[i];
    }
  }

  /** A table of n NA records, if a table may be that large. */
  method MakeTable(n: nat) returns (r: Option<Table>)
    ensures r.None? <==> n > 0x10_0000_0000_0000
    ensures r.Some? ==> fresh(r.value) && r.value.Valid() && r.value.Entries() == seq(n, _ => NaRow()) && r.value.capacity == n
    ensures r.Some? && n > 0 ==> fresh(r.value.ptrs) && fresh(r.value.lens) && fresh(r.value.encs)
  {
    var table := new Table.Empty();
    var ok := table.Reserve(n);
    if !ok {
      return None;
    }
    table.length := n;
    var i := 0;
    while i < n
      invariant i <= n && table.Valid() && table.length == table.capacity == n
      invariant n > 0 ==> fresh(table.ptrs) && fresh(table.lens) && fresh(table.encs)
      invariant forall j :: 0 <= j < i ==> table.Entries()[j] == NaRow()
    {
      table.Set(i, NaRow());
      i := i + 1;
    }
    r := Some(table);
  }

  // The table of entries and the arrays.

  datatype Change = Room(n: nat) | Add(r: Row) | Put(i: nat, r: Row)

  /** The arrays are the table that the rest of the model uses. */
  ghost predicate Same(arrays: Table, table: RecordTable)
    reads arrays, table, arrays.Footprint()
  {
    arrays.Valid() && table.Valid() && arrays.Entries() == table.rows && arrays.capacity == table.capacity
  }

  method ChangeArrays(arrays: Table, c: Change)
    requires arrays.Valid()
    modifies arrays.Footprint()
    ensures arrays.Valid() && fresh(arrays.Footprint() - old(arrays.Footprint()))
    ensures arrays.Entries() ==
            match c
            case Room(_) => old(arrays.Entries())
            case Add(r) => if |old(arrays.Entries())| < MAX_CAPACITY then old(arrays.Entries()) + [r] else old(arrays.Entries())
            case Put(i, r) => if i < |old(arrays.Entries())| then old(arrays.Entries())[i := r] else old(arrays.Entries())
    ensures arrays.capacity ==
            match c
            case Room(n) => if old(arrays.capacity) < n <= MAX_CAPACITY then n else old(arrays.capacity)
            case Add(_) => NextCapacity(old(arrays.length), old(arrays.capacity))
            case Put(_, _) => old(arrays.capacity)
  {
    match c
    case Room(n) => var ok := arrays.Reserve(n);
    case Add(r) => var ok := arrays.PushBack(r);
    case Put(i, r) =>
      if i < arrays.length {
        arrays.Set(i, r);
      }
  }

  method ChangeTable(table: RecordTable, c: Change)
    requires table.Valid()
    modifies table
    ensures table.Valid()
    ensures table.rows ==
            match c
            case Room(_) => old(table.rows)
            case Add(r) => if |old(table.rows)| < MAX_CAPACITY then old(table.rows) + [r] else old(table.rows)
            case Put(i, r) => if i < |old(table.rows)| then old(table.rows)[i := r] else old(table.rows)
    ensures table.capacity ==
            match c
            case Room(n) => if old(table.capacity) < n <= MAX_CAPACITY then n else old(table.capacity)
            case Add(_) => NextCapacity(|old(table.rows)|, old(table.capacity))
            case Put(_, _) => old(table.capacity)
  {
    match c
    case Room(n) => var ok := table.Reserve(n);
    case Add(r) =>
      var ok := table.ReserveForAppend();
      if ok {
        table.PushBackReserved(r);
      }
    case Put(i, r) =>
      if i < |table.rows| {
        table.Set(i, r);
      }
  }

  /** Over any run of changes the arrays stay the table. */
  method RunBoth(arrays: Table, table: RecordTable, changes: seq<Change>)
    requires Same(arrays, table)
    modifies arrays.Footprint(), table
    ensures Same(arrays, table)
  {
    ghost var own := arrays.Footprint();
    var k := 0;
    while k < |changes|
      invariant k <= |changes| && Same(arrays, table) && fresh(arrays.Footprint() - own)
    {
      ChangeArrays(arrays, changes[k]);
      ChangeTable(table, changes[k]);
      k := k + 1;
    }
  }

  /** The capacity of a table that began empty, after n appends. */
  function CapacityAfter(n: nat): nat {
    if n == 0 then 0 else NextCapacity(n - 1, CapacityAfter(n - 1))
  }

  /** The records that growing copied, over n appends to a table that began empty. */
  function Moved(n: nat): nat {
    if n == 0 then 0 else Moved(n - 1) + if n - 1 == CapacityAfter(n - 1) then n - 1 else 0
  }

  /** Doubling pays: n appends copy fewer than 2n records, and leave less than n slots unused. */
  lemma {:induction false} AppendsCopyFew(n: nat)
    requires 0 < n <= MAX_CAPACITY
    ensures n <= CapacityAfter(n) < 2 * n
    ensures Moved(n) < 2 * n && (CapacityAfter(n) < MAX_CAPACITY ==> Moved(n) < CapacityAfter(n))
  {
    if n > 1 {
      AppendsCopyFew(n - 1);
    }
  }

  /** Appends records one by one to a new table. Growing copies what Moved counts:
      fewer than two records for each that is appended. */
  method AppendAll(rows: seq<Row>) returns (table: Table)
    requires |rows| <= MAX_CAPACITY
    ensures fresh(table) && table.Valid() && table.Entries() == rows
    ensures table.capacity == CapacityAfter(|rows|) && table.copied == Moved(|rows|)
    ensures rows != [] ==> table.capacity < 2 * |rows| && table.copied < 2 * |rows|
  {
    table := new Table.Empty();
    var k := 0;
    while k < |rows|
      invariant k <= |rows| && table.Valid() && table.Entries() == rows[..k] && fresh(table.Footprint())
      invariant table.capacity == CapacityAfter(k) && table.copied == Moved(k)
    {
      var ok := table.PushBack(rows[k]);
      k := k + 1;
    }
    assert rows[..k] == rows;
    if rows != [] {
      AppendsCopyFew(|rows|);
    }
  }
}
