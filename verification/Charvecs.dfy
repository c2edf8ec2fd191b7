/** The charvec object: a Store, the chunks of its Elt cache, and the strings
    themselves once it is materialized. */
module Charvecs {
  import opened Records
  import opened RStrings
  import opened Stores
  import opened EltCache
  import Compaction
  import Construction
  import PackSubset

  type Chunks = Option<seq<array?<Obj>>>

  ghost function Arrays(chunks: Chunks): set<array<Obj>> {
    if chunks.None? then {} else set c | 0 <= c < |chunks.value| && chunks.value[c] != null :: chunks.value[c]
  }

  /** What the cache holds. */
  ghost function CacheOf(chunks: Chunks): (cache: Option<seq<Chunk>>)
    reads Arrays(chunks)
    ensures cache.Some? == chunks.Some? && (chunks.Some? ==> |cache.value| == |chunks.value|)
  {
    if chunks.None? then None
    else Some(seq(|chunks.value|, c requires 0 <= c < |chunks.value| reads Arrays(chunks) =>
                if chunks.value[c] == null then None else Some(chunks.value[c][..])))
  }

  /** No two chunks are one object. */
  ghost predicate ChunksApart(chunks: Chunks) {
    chunks.Some? ==>
      forall c, d :: 0 <= c < d < |chunks.value| && chunks.value[c] != null ==> chunks.value[c] != chunks.value[d]
  }

  /** One chunk holds the whole vector. */
  predicate HasSingleChunk(chunks: Chunks) {
    chunks.Some? && |chunks.value| == 1 && chunks.value[0] != null
  }

  /** Writing one slot of one chunk changes that slot of the cache only. */
  method WriteSlot(chunk: array<Obj>, j: nat, o: Obj, ghost chunks: Chunks, ghost c: nat)
    requires j < chunk.Length && chunks.Some? && c < |chunks.value| && chunks.value[c] == chunk && ChunksApart(chunks)
    modifies chunk
    ensures chunk[..] == old(chunk[..])[j := o]
    ensures CacheOf(chunks) == Some(old(CacheOf(chunks)).value[c := Some(old(chunk[..])[j := o])])
  {
    ghost var was := CacheOf(chunks);
    chunk[j] := o;
    forall d | 0 <= d < |chunks.value|
      ensures CacheOf(chunks).value[d] == was.value[c := Some(old(chunk[..])[j := o])][d]
    {
      if d != c && chunks.value[d] != null {
        assert chunks.value[d] != chunk;
      }
    }
    assert CacheOf(chunks).value == was.value[c := Some(old(chunk[..])[j := o])];
  }

  /** The cache once chunk c is there: what it held it still holds. */
  method TouchChunks(chunks: Chunks, n: nat, c: nat) returns (more: Chunks, chunk: array<Obj>)
    requires ChunksApart(chunks) && c < ChunkCount(n) && (chunks.Some? ==> |chunks.value| == ChunkCount(n))
    ensures more.Some? && |more.value| == ChunkCount(n) && more.value[c] == chunk && ChunksApart(more)
    ensures CacheOf(more) == Some(TouchCache(old(CacheOf(chunks)), n, c))
    ensures forall a :: a in Arrays(more) ==> a in Arrays(chunks) || fresh(a)
  {
    if chunks.Some? && chunks.value[c] != null {
      assert CacheOf(chunks).value[c].Some?;
      return chunks, chunks.value[c];
    }
    ghost var cache := CacheOf(chunks);
    chunk := new Obj[ChunkLen(n, c)](_ => BLANK);
    assert chunk[..] == Blanks(ChunkLen(n, c));
    if chunks.Some? {
      more := Some(chunks.value[c := chunk]);
    } else {
      more := Some(seq(ChunkCount(n), d => if d == c then chunk else null));
    }
    if chunks.Some? {
      forall d | 0 <= d < |chunks.value| && chunks.value[d] != null
        ensures CacheOf(more).value[d] == if d == c then Some(chunk[..]) else cache.value[d]
      {
      }
    }
    assert CacheOf(more).value == TouchCache(cache, n, c);
  }

  /** The element a one-based subscript names, if it is in range. */
  function Place(i: PackSubset.Double, n: nat): (k: Option<nat>)
    ensures k.Some? <==> i.Finite? && 1.0 <= i.x <= n as real
    ensures k.Some? ==> k.value < n && k.value == i.x.Floor - 1
  {
    if i.NotFinite? || i.x < 1.0 || i.x > n as real then None else Some(i.x.Floor - 1)
  }

  /** Assigning an R string stores its record. */
  lemma {:induction false} StringStored(x: RString)
    requires x.Proper()
    ensures StringView(x).Readable() && StringView(x).Stored() == FromString(x)
  {
  }

  /** The chain, the table, the slices and their bytes. */
  ghost function StoreFootprint(store: Store): set<object>
    reads store.slices, store.records
  {
    var nodes: set<object> := set k | 0 <= k < |store.slices.nodes| :: store.slices.nodes[k];
    var owned: set<object>, blocks: set<object> := Owned(store.slices.nodes), BlocksOf(store.records.rows);
    {store, store.slices, store.records} + nodes + owned + blocks
  }

  lemma {:induction false} LaidBlocks(store: Store)
    requires store.Valid()
    ensures BlocksOf(store.records.rows) <= Owned(store.slices.nodes)
  {
    var rows := store.records.rows;
    forall i | 0 <= i < |rows| && rows[i].ptr.In?
      ensures rows[i].ptr.block in Owned(store.slices.nodes)
    {
      assert RowOk(rows[i], Owned(store.slices.nodes));
    }
  }

  /** A Store whose every slice it had before or is new owns nothing else that is not new. */
  twostate lemma StoreGrown(new store: Store)
    requires old(allocated(store)) && store.Valid()
    requires forall m :: 0 <= m < |store.slices.nodes| ==>
               store.slices.nodes[m] in old(store.slices.nodes)
               || (fresh(store.slices.nodes[m]) && fresh(store.slices.nodes[m].data))
    ensures fresh(StoreFootprint(store) - old(StoreFootprint(store)))
  {
    LaidBlocks(store);
    var nodes := store.slices.nodes;
    forall m | 0 <= m < |nodes|
      ensures nodes[m].data in old(Owned(store.slices.nodes)) || fresh(nodes[m].data)
    {
    }
  }

  /** Memory a Store writes to holds no chunk of strings. */
  lemma {:induction false} StoreApart(chunks: Chunks, store: Store)
    ensures var arrays: set<object>, owned: set<object> := Arrays(chunks), Owned(store.slices.nodes);
            arrays !! owned && store.records !in arrays && store.slices !in arrays
  {
  }

  /** The vector before materializing: what its Store and its cache hold. */
  ghost predicate Before(was: Vec, rows: seq<Row>, chunks: Chunks)
    reads BlocksOf(rows), Arrays(chunks)
  {
    was.Shaped() && was == Vec(RecsOf(rows), CacheOf(chunks), None)
  }

  lemma {:induction false} ChunkHolds(was: Vec, c: nat, chunk: array?<Obj>)
    requires was.Shaped() && was.data2.None? && was.chunks.Some? && c < |was.chunks.value|
    requires was.chunks.value[c] == if chunk == null then None else Some(chunk[..])
    ensures chunk != null ==> ChunkLen(|was.recs|, c) == chunk.Length
    ensures c * CHUNK + ChunkLen(|was.recs|, c) <= |was.recs|
    ensures c + 1 < |was.chunks.value| ==> ChunkLen(|was.recs|, c) == CHUNK
    ensures c + 1 == |was.chunks.value| ==> c * CHUNK + ChunkLen(|was.recs|, c) == |was.recs|
    ensures forall k :: c * CHUNK <= k < c * CHUNK + ChunkLen(|was.recs|, c) ==>
              was.Held(k) == if chunk == null then BLANK else chunk[k - c * CHUNK]
  {
    forall k | c * CHUNK <= k < c * CHUNK + ChunkLen(|was.recs|, c)
      ensures was.Held(k) == if chunk == null then BLANK else chunk[k - c * CHUNK]
    {
      ElementOfSlot(|was.recs|, c, k - c * CHUNK);
    }
  }

  lemma {:induction false} SingleChunk(was: Vec, chunk: array<Obj>)
    requires was.Shaped() && was.data2.None? && was.chunks.Some? && |was.chunks.value| == 1 && was.chunks.value[0] == Some(chunk[..])
    ensures chunk.Length == |was.recs| && forall k :: 0 <= k < |was.recs| ==> was.Held(k) == chunk[k]
  {
    SingleSlots(was, chunk[..]);
    assert forall k :: 0 <= k < |was.recs| ==> chunk[..][k] == chunk[k];
  }

  /** The one chunk has a slot for every element. */
  lemma {:induction false} SingleSlots(was: Vec, slots: seq<Obj>)
    requires was.Shaped() && was.data2.None? && was.chunks.Some? && |was.chunks.value| == 1 && was.chunks.value[0] == Some(slots)
    ensures |slots| == |was.recs| && forall k :: 0 <= k < |was.recs| ==> was.Held(k) == slots[k]
  {
    assert |slots| == ChunkLen(|was.recs|, 0) == |was.recs| <= CHUNK;
    forall k | 0 <= k < |was.recs|
      ensures was.Held(k) == slots[k]
    {
      assert k / CHUNK == 0 && k % CHUNK == k;
    }
  }

  /** Fills in slot i if it is a miss. */
  method PromoteSlot(chunk: array<Obj>, rows: seq<Row>, i: nat, id: nat, ghost was: Vec)
    requires was.Shaped() && was.data2.None? && RecsOf(rows) == was.recs && i < |rows| == chunk.Length && chunk[i] == was.Held(i)
    modifies chunk
    ensures RecsOf(rows) == was.recs && chunk[i] == Picked(was, i, id)
    ensures forall k :: 0 <= k < chunk.Length && k != i ==> chunk[k] == old(chunk[k])
  {
    ghost var blocks: set<object> := BlocksOf(rows);
    assert chunk !in blocks;
    if chunk[i] == BLANK {
      assert RowRec(rows[i]) == was.recs[i];
      chunk[i] := Mint(RowRec(rows[i]), id);
    }
  }

  /** Fills in a single chunk, which is as long as the vector. */
  method PromoteChunk(chunk: array<Obj>, rows: seq<Row>, chunks: Chunks, ids: nat -> nat, ghost was: Vec)
    requires Before(was, rows, chunks) && chunks.Some? && |chunks.value| == 1 && chunks.value[0] == chunk
    modifies chunk
    ensures chunk.Length == |rows| && forall k :: 0 <= k < |rows| ==> chunk[k] == Picked(was, k, ids(k))
  {
    assert CacheOf(chunks).value[0] == Some(chunk[..]);
    SingleChunk(was, chunk);
    var i := 0;
    while i < |rows|
      invariant i <= |rows| == chunk.Length && RecsOf(rows) == was.recs
      invariant forall k :: 0 <= k < i ==> chunk[k] == Picked(was, k, ids(k))
      invariant forall k :: i <= k < |rows| ==> chunk[k] == was.Held(k)
    {
      PromoteSlot(chunk, rows, i, ids(i), was);
      i := i + 1;
    }
  }

  /** Copies one chunk's strings, and makes those it does not have. */
  method CopyChunk(out: array<Obj>, start: nat, end: nat, chunk: array?<Obj>, rows: seq<Row>, ids: nat -> nat, ghost was: Vec)
    requires start <= end <= |rows| == out.Length && was.Shaped() && was.data2.None? && was.recs == RecsOf(rows)
    requires chunk != null ==> chunk != out && end - start <= chunk.Length
    requires forall k :: start <= k < end ==> was.Held(k) == if chunk == null then BLANK else chunk[k - start]
    modifies out
    ensures forall k :: start <= k < end ==> out[k] == Picked(was, k, ids(k))
    ensures forall k :: 0 <= k < |rows| && !(start <= k < end) ==> out[k] == old(out[k])
    ensures RecsOf(rows) == old(RecsOf(rows))
  {
    ghost var blocks: set<object> := BlocksOf(rows);
    assert out !in blocks;
    var i := start;
    while i < end
      invariant start <= i <= end && RecsOf(rows) == was.recs
      invariant forall k :: start <= k < end ==> was.Held(k) == if chunk == null then BLANK else chunk[k - start]
      invariant forall k :: start <= k < i ==> out[k] == Picked(was, k, ids(k))
      invariant forall k :: 0 <= k < |rows| && !(start <= k < i) ==> out[k] == old(out[k])
    {
      var elt := if chunk == null then BLANK else chunk[i - start];
      if elt == BLANK {
        assert RowRec(rows[i]) == was.recs[i];
        elt := Mint(RowRec(rows[i]), ids(i));
      }
      out[i] := elt;
      i := i + 1;
    }
  }

  /** All the strings: the cached ones, and new ones for the rest. */
  method CopyAll(rows: seq<Row>, chunks: Chunks, ids: nat -> nat, ghost was: Vec) returns (out: array<Obj>)
    requires Before(was, rows, chunks)
    ensures fresh(out) && out.Length == |rows| && forall k :: 0 <= k < |rows| ==> out[k] == Picked(was, k, ids(k))
    ensures RecsOf(rows) == old(RecsOf(rows))
  {
    ghost var cache := CacheOf(chunks);
    out := new Obj[|rows|](_ => BLANK);
    assert RecsOf(rows) == was.recs;
    if chunks.None? {
      CopyChunk(out, 0, |rows|, null, rows, ids, was);
      return;
    }
    var c, done := 0, 0;
    while c < |chunks.value|
      invariant c <= |chunks.value| && done <= |rows| && done == (if c < |chunks.value| then c * CHUNK else |rows|)
      invariant RecsOf(rows) == was.recs
      invariant forall d :: 0 <= d < |chunks.value| ==> chunks.value[d] != out && cache.value[d] == if chunks.value[d] == null then None else Some(chunks.value[d][..])
      invariant forall k :: 0 <= k < done ==> out[k] == Picked(was, k, ids(k))
    {
      ChunkHolds(was, c, chunks.value[c]);
      CopyChunk(out, done, done + ChunkLen(|rows|, c), chunks.value[c], rows, ids, was);
      done := done + ChunkLen(|rows|, c);
      c := c + 1;
    }
  }

  /** A Store of the same records that shares nothing. */
  method CopyStore(store: Store) returns (made: Store)
    requires store.Valid()
    ensures made.Valid() && fresh(StoreFootprint(made)) && made.Contents() == old(store.Contents())
  {
    made := Compaction.RebuildStore(store.records, Owned(store.slices.nodes));
    LaidBlocks(made);
  }

  /** A Store of the selected records. */
  method SelectStore(store: Store, sub: PackSubset.Subscripts) returns (made: Store)
    requires store.Valid() && sub.Size() <= MAX_CAPACITY
    ensures made.Valid() && fresh(StoreFootprint(made)) && made.Contents() == PackSubset.Subset(old(store.Contents()), sub)
  {
    made := Construction.SubsetStore(store, sub);
    LaidBlocks(made);
  }

  class Charvec {
    var store: Store?
    var chunks: Chunks
    var data2: array?<Obj>

    /** Everything the object owns. */
    ghost function Footprint(): set<object>
      reads this
      reads if store == null then {} else {store.slices, store.records}
    {
      var arrays: set<object>, held: set<object> := Arrays(chunks), if store == null then {} else StoreFootprint(store);
      {this} + arrays + held + if data2 == null then {} else {data2}
    }

    /** What the object stands for. */
    ghost function Model(): Vec
      reads this, Footprint()
      reads if store == null then {} else {store.slices, store.records}
    {
      Vec(if data2 != null || store == null then [] else store.Contents(), CacheOf(chunks),
          if data2 == null then None else Some(data2[..]))
    }

    /** The Store is there until the strings are. */
    ghost predicate Valid()
      reads this, Footprint()
      reads if store == null then {} else {store.slices, store.records}
    {
      && (data2 == null <==> store != null) && (store != null ==> store.Valid())
      && (data2 != null ==> chunks.None?)
      && ChunksApart(chunks) && Model().Shaped()
    }

    constructor (store: Store)
      requires store.Valid()
      ensures Valid() && this.store == store && Model() == Vec(store.Contents(), None, None)
      ensures Footprint() == {this} + StoreFootprint(store)
    {
      this.store, chunks, data2 := store, None, null;
    }

    /** An ordinary character vector: R reads and writes it as it does a materialized charvec. */
    constructor Ordinary(strings: array<Obj>)
      ensures Valid() && Model() == Vec([], None, Some(strings[..])) && Footprint() == {this, strings}
    {
      store, chunks, data2 := null, None, strings;
    }

    function Length(): (n: nat)
      requires Valid()
      reads this, Footprint()
      reads if store == null then {} else {store.slices, store.records}
      ensures n == Model().Length()
    {
      if data2 != null then data2.Length else |store.records.rows|
    }

    /** The chunk of element i, made on first touch. */
    method EltChunk(i: nat) returns (chunk: array<Obj>)
      requires Valid() && data2 == null && i < Model().Length()
      modifies this
      ensures Valid() && data2 == null && store == old(store)
      ensures chunks.Some? && i / CHUNK < |chunks.value| && chunks.value[i / CHUNK] == chunk
      ensures Model() == Touch(old(Model()), i / CHUNK)
      ensures chunk in old(Arrays(chunks)) || fresh(chunk)
      ensures fresh(Footprint() - old(Footprint()))
    {
      SlotOf(|store.records.rows|, i);
      ghost var recs, cache := store.Contents(), CacheOf(chunks);
      var more;
      more, chunk := TouchChunks(chunks, |store.records.rows|, i / CHUNK);
      ghost var touched := CacheOf(more);
      assert touched == Some(TouchCache(cache, |recs|, i / CHUNK));
      assert store.Valid() && store.Contents() == recs;
      ghost var blocks: set<object>, arrays: set<object> := BlocksOf(store.records.rows), Arrays(more);
      assert this !in blocks && this !in arrays;
      chunks := more;
      assert CacheOf(more) == touched && store.Valid() && store.Contents() == recs;
    }

    /** STRING_ELT. */
    method StringElt(i: nat, id: nat) returns (elt: Obj)
      requires Valid() && i < Model().Length()
      modifies this, Arrays(chunks)
      ensures Valid() && store == old(store) && data2 == old(data2)
      ensures (Model(), elt) == Elt(old(Model()), i, id)
      ensures fresh(Footprint() - old(Footprint()))
    {
      if data2 != null {
        return data2[i];
      }
      var chunk := EltChunk(i);
      var c, j := i / CHUNK, i % CHUNK;
      SlotOf(|store.records.rows|, i);
      elt := chunk[j];
      if elt != BLANK {
        return;
      }
      elt := Mint(RowRec(store.records.rows[i]), id);
      if elt != BLANK {
        StoreSlot(chunk, c, j, elt);
      }
    }

    /** Writes one slot of the cache. The Store is not touched. */
    method StoreSlot(chunk: array<Obj>, c: nat, j: nat, elt: Obj)
      requires Valid() && data2 == null && chunks.Some? && c < |chunks.value| && chunks.value[c] == chunk && j < chunk.Length
      requires c * CHUNK + j < Model().Length() && (c * CHUNK + j) / CHUNK == c && (c * CHUNK + j) % CHUNK == j
      modifies chunk
      ensures Valid() && Model() == PutSlot(old(Model()), c * CHUNK + j, elt)
      ensures Footprint() == old(Footprint())
    {
      ghost var was, recs := Model(), store.Contents();
      ghost var blocks: set<object> := BlocksOf(store.records.rows);
      assert chunk !in blocks;
      WriteSlot(chunk, j, elt, chunks, c);
      assert store.Valid() && store.Contents() == recs;
      assert Model() == PutSlot(was, c * CHUNK + j, elt);
    }

    /** SET_STRING_ELT. */
    method StringSetElt(i: nat, x: Obj)
      requires Valid() && i < Model().Length() && x.value.Proper()
      modifies data2, Arrays(chunks)
      modifies if store == null then {} else {store.slices, store.records}
      modifies if store == null then {} else Owned(store.slices.nodes)
      ensures Valid() && Model() == SetElt(old(Model()), i, x)
      ensures fresh(Footprint() - old(Footprint()))
    {
      ghost var was := Model();
      if data2 != null {
        data2[i] := x;
        return;
      }
      StringStored(x.value);
      StoreApart(chunks, store);
      var ok := store.Assign(i, StringView(x.value));
      assert Model() == was.(recs := was.recs[i := FromString(x.value)]);
      StoreGrown(store);
      if chunks.Some? {
        SlotOf(|store.records.rows|, i);
        if chunks.value[i / CHUNK] != null {
          assert CacheOf(chunks).value[i / CHUNK].Some?;
          StoreSlot(chunks.value[i / CHUNK], i / CHUNK, i % CHUNK, x);
        }
      }
    }

    /** Materializes into data2 and frees the Store. A single chunk becomes data2 itself. */
    method Materialize(ids: nat -> nat) returns (strings: array<Obj>)
      requires Valid()
      modifies this, Arrays(chunks)
      modifies if store == null then {} else {store.slices}
      modifies if store == null then [] else store.slices.nodes
      ensures Valid() && data2 == strings && Model() == EltCache.Materialize(old(Model()), ids)
      ensures if old(data2) != null then data2 == old(data2)
              else if old(HasSingleChunk(chunks)) then data2 == old(chunks.value[0])
              else fresh(data2)
      ensures fresh(Footprint() - old(Footprint()))
      ensures old(store) != null ==> forall k :: 0 <= k < |old(store.slices.nodes)| ==> old(store.slices.nodes)[k].freed
    {
      if data2 != null {
        return data2;
      }
      ghost var was := Model();
      if HasSingleChunk(chunks) {
        strings := chunks.value[0];
        PromoteChunk(strings, store.records.rows, chunks, ids, was);
      } else {
        strings := CopyAll(store.records.rows, chunks, ids, was);
      }
      assert strings[..] == EltCache.Materialize(was, ids).data2.value;
      store.slices.Clear();
      data2, store, chunks := strings, null, None;
    }

    /** A copy that shares nothing: a charvec with a Store of its own, or, once
        materialized, a plain character vector of the same objects. */
    method Duplicate() returns (copy: Charvec?, plain: array?<Obj>)
      requires Valid()
      ensures if data2 == null then copy != null && plain == null else copy == null && plain != null
      ensures copy != null ==> fresh(copy) && copy.Valid() && copy.Model() == EltCache.Duplicate(old(Model()))
      ensures copy != null ==> fresh(copy.Footprint())
      ensures plain != null ==> fresh(plain) && plain[..] == data2[..]
    {
      copy, plain := null, null;
      if data2 != null {
        var strings := data2;
        plain := new Obj[strings.Length](k requires 0 <= k < strings.Length reads strings => strings[k]);
        return;
      }
      var made := CopyStore(store);
      copy := new Charvec(made);
    }

    /** The Store, for direct writing: not once R holds a string made from it. */
    method GetStore() returns (direct: Store?)
      requires Valid()
      ensures Valid() && Model() == old(Model()) && Footprint() == old(Footprint())
      ensures direct == if Model().data2.None? && Model().chunks.None? then store else null
      ensures direct != null ==> direct.Valid() && Model() == Vec(direct.Contents(), None, None)
      ensures direct != null ==> forall i :: 0 <= i < Model().Length() ==> Model().Held(i) == BLANK
    {
      if data2 != null {
        return null;
      }
      if chunks.Some? {
        return null;
      }
      direct := store;
    }

    /** Writes a value to the Store directly, if it may be had. */
    method WriteDirect(i: nat, value: View) returns (ok: bool)
      requires Valid() && i < Model().Length() && value.Readable()
      modifies if store == null then {} else {store.slices, store.records}
      modifies if store == null then {} else Owned(store.slices.nodes)
      ensures Valid() && fresh(Footprint() - old(Footprint()))
      ensures ok <==> old(Model()).data2.None? && old(Model()).chunks.None?
      ensures Model() == Pour(old(Model()), i, value.Stored())
    {
      ghost var was := Model();
      var direct := GetStore();
      if direct == null {
        assert was.data2.Some? || was.chunks.Some?;
        return false;
      }
      ok := direct.Assign(i, value);
      StoreGrown(direct);
      assert Model() == was.(recs := was.recs[i := value.Stored()]);
    }

    /** Compacts the Store in place. A materialized vector has none, which is an error. */
    method CompactStore() returns (ok: bool)
      requires Valid()
      modifies if store == null then {} else {store.slices, store.records}
      modifies if store == null then [] else store.slices.nodes
      ensures Valid() && Model() == old(Model())
      ensures ok <==> data2 == null
      ensures fresh(Footprint() - old(Footprint()))
      ensures ok ==> forall k :: 0 <= k < |old(store.slices.nodes)| ==> old(store.slices.nodes)[k].freed
      ensures ok ==> forall k :: 0 <= k < |store.slices.nodes| ==> fresh(store.slices.nodes[k]) && fresh(store.slices.nodes[k].data)
      ensures ok ==> |store.slices.nodes| == Compaction.Slices(old(Compaction.Lens(store.records.rows)), 0)
      ensures ok ==> Compaction.Room(store.slices.nodes) == Total(Model().recs)
    {
      if data2 != null {
        return false;
      }
      ghost var was, cache := Model(), CacheOf(chunks);
      StoreApart(chunks, store);
      Compaction.Compact(store);
      StoreGrown(store);
      assert CacheOf(chunks) == cache;
      ok := true;
    }

    method AssignAt(k: Option<nat>, value: seq<Obj>) returns (ok: bool)
      requires Valid() && (k.Some? ==> k.value < Model().Length()) && forall j :: 0 <= j < |value| ==> value[j].value.Proper()
      modifies data2, Arrays(chunks)
      modifies if store == null then {} else {store.slices, store.records}
      modifies if store == null then {} else Owned(store.slices.nodes)
      ensures Valid() && fresh(Footprint() - old(Footprint()))
      ensures ok <==> |value| == 1 && k.Some?
      ensures Model() == if ok then SetElt(old(Model()), k.value, value[0]) else old(Model())
    {
      if |value| != 1 || k.None? {
        return false;
      }
      StringSetElt(k.value, value[0]);
      ok := true;
    }

    /** x[i] <- value from R, one-based, for a value of one string. */
    method Assign(i: PackSubset.Double, value: seq<Obj>) returns (ok: bool)
      requires Valid() && forall k :: 0 <= k < |value| ==> value[k].value.Proper()
      modifies data2, Arrays(chunks)
      modifies if store == null then {} else {store.slices, store.records}
      modifies if store == null then {} else Owned(store.slices.nodes)
      ensures Valid() && fresh(Footprint() - old(Footprint()))
      ensures ok <==> |value| == 1 && i.Finite? && 1.0 <= i.x <= old(Model()).Length() as real
      ensures Model() == if ok then SetElt(old(Model()), i.x.Floor - 1, value[0]) else old(Model())
    {
      ok := AssignAt(Place(i, Length()), value);
    }

    /** x[sub]: a charvec of the selected records with a Store of its own; nothing
        once materialized, when R subsets the strings itself. */
    method ExtractSubset(sub: PackSubset.Subscripts) returns (out: Charvec?)
      requires Valid() && sub.Size() <= MAX_CAPACITY
      ensures out == null <==> data2 != null
      ensures out != null ==> fresh(out.Footprint()) && out.Valid() && out.Model() == Vec(PackSubset.Subset(old(Model()).recs, sub), None, None)
    {
      if data2 != null {
        return null;
      }
      var made := SelectStore(store, sub);
      out := new Charvec(made);
    }
  }

  /** An object none of whose own things changed is as it was. */
  twostate lemma Undisturbed(new y: Charvec, new fp: set<object>)
    requires old(allocated(y)) && old(allocated(fp)) && fp == old(y.Footprint()) && unchanged(fp)
    ensures y.Footprint() == fp && y.Model() == old(y.Model()) && (old(y.Valid()) ==> y.Valid())
  {
  }
}
