/** Serializing a charvec and restoring it. */
module CpvState {
  import opened Records
  import opened RStrings
  import opened Words
  import opened Seqs
  import opened Memory
  import opened PackLayout
  import opened PackRecords
  import opened PackState
  import opened Stores
  import opened Builders
  import opened Construction
  import opened Cpv
  import opened CpvParse

  /** The records a state is read as: a CPV2 state's native records were written
      as UTF-8, a CPV1 state's are the reading locale's. */
  function Loaded(v: Version, recs: seq<Rec>, loc: Locale): (out: seq<Rec>)
    ensures |out| == |recs|
  {
    if v.Cpv2? then RelabelAll(recs, loc) else recs
  }

  /** What a reader in a locale must make of a state. CPV1 said nothing of its native
      records, so they are the reading locale's, as they are; CPV2 wrote them as UTF-8. */
  ghost predicate ReadBack(v: Version, recs: seq<Rec>, out: seq<Rec>, loc: Locale) {
    if v == Cpv1 then out == recs else ReadAsUtf8(recs, out, loc)
  }

  lemma {:induction false} LoadedReadBack(v: Version, recs: seq<Rec>, loc: Locale)
    requires AllValid(recs)
    ensures ReadBack(v, recs, Loaded(v, recs, loc), loc)
  {
    RelabelReads(recs, loc);
  }

  /** Record i of a state: its tag and bytes are where the reader looks. */
  lemma {:induction false} RecordThere(s: seq<byte>, v: Version, o: Order, recs: seq<Rec>, i: nat)
    requires WritesCpv(s, v, o, recs) && i < |recs|
    ensures PREFIX + BytesStart(|recs|, false) + Start(recs, i + 1) <= |s|
    ensures Start(recs, i + 1) == Start(recs, i) + |recs[i].Bytes()|
    ensures s[PREFIX + TagsStart(|recs|, false) + i] == recs[i].Tag()
    ensures s[PREFIX + BytesStart(|recs|, false) + Start(recs, i)..PREFIX + BytesStart(|recs|, false) + Start(recs, i + 1)] == recs[i].Bytes()
  {
    var body, m := s[PREFIX..], BytesStart(|recs|, false);
    TagThere(s, |recs|, i, BodyFields(recs));
    SpanOf(recs, body, m, i);
    assert s[PREFIX..|s|] == body;
    Nested(s, PREFIX, |s|, m + Start(recs, i), m + Start(recs, i + 1));
  }

  /** The tag a record of a state gets. */
  function LoadedTag(v: Version, tag: byte, loc: Locale): byte {
    if tag == NATIVE && v.Cpv2? && !loc.utf8 then UTF8 else tag
  }

  /** One record of a checked state, as it is stored. */
  method LoadRecord(raw: array<byte>, layout: Layout, host: Order, loc: Locale, i: nat, off: nat, ghost recs: seq<Rec>)
    returns (value: Source, next: nat)
    requires layout.n == |recs| && HoldsCpv(raw[..], layout.version, Reading(host, layout.swap), recs)
    requires i < |recs| && off == Start(recs, i)
    ensures next == Start(recs, i + 1)
    ensures value.Readable() && value.Taken() <= STRING_MAX && value.Rec() == Loaded(layout.version, recs, loc)[i]
  {
    ghost var s := raw[..];
    RecordThere(s, layout.version, Reading(host, layout.swap), recs, i);
    assert recs[i].Valid();
    var size := ReadSize(raw, i, host, layout.swap, BodyFields(recs));
    var tag := LoadedTag(layout.version, raw[PREFIX + TagsStart(layout.n, false) + i], loc);
    var at := PREFIX + BytesStart(layout.n, false) + off;
    next := off + size;
    if tag == NA_TAG {
      value := Source(None, 0, NA_TAG);
    } else {
      var bytes := raw[at..at + size];
      assert bytes == s[at..at + size];
      value := Source(Some(bytes), size, tag);
    }
  }

  /** Loads the next record into the builder, whose slices are apart from the state. */
  method LoadNext(b: Builder, raw: array<byte>, layout: Layout, host: Order, loc: Locale, i: nat, off: nat,
                  ghost recs: seq<Rec>, ghost target: seq<Rec>)
    returns (next: nat)
    requires layout.n == |recs| && HoldsCpv(raw[..], layout.version, Reading(host, layout.swap), recs)
    requires target == Loaded(layout.version, recs, loc) && i < |recs| <= MAX_CAPACITY && off == Start(recs, i)
    requires Filling(b, target, i) && raw !in Owned(b.shard.slices.nodes)
    modifies b.store.records, b.shard, b.shard.slices, Owned(b.shard.slices.nodes)
    ensures next == Start(recs, i + 1) && Filling(b, target, i + 1) && Grown(b.shard.slices.nodes, old(b.shard.slices.nodes))
    ensures OnlyNew(b.shard.slices.nodes, old(b.shard.slices.nodes))
    ensures raw !in Owned(b.shard.slices.nodes) && raw[..] == old(raw[..])
  {
    ghost var was := b.shard.slices.nodes;
    var value;
    value, next := LoadRecord(raw, layout, host, loc, i, off, recs);
    assert Filling(b, target, i);
    SetNext(b, value, target, i);
    GrownOwned(b.shard.slices.nodes, was);
  }

  /** Builds the Store of a checked state. */
  method UnserializeStore(raw: array<byte>, layout: Layout, host: Order, loc: Locale, ghost recs: seq<Rec>) returns (out: Store)
    requires raw.Length <= XLEN_MAX && layout.n == |recs| && HoldsCpv(raw[..], layout.version, Reading(host, layout.swap), recs)
    ensures out.Valid() && fresh(out) && out.Contents() == Loaded(layout.version, recs, loc)
    ensures ReadBack(layout.version, recs, out.Contents(), loc)
  {
    LoadedReadBack(layout.version, recs, loc);
    var b := LoadAll(raw, layout, host, loc, recs);
    out := b.ReleaseStore();
  }

  /** A builder that holds the records of a checked state. */
  method LoadAll(raw: array<byte>, layout: Layout, host: Order, loc: Locale, ghost recs: seq<Rec>) returns (b: Builder)
    requires raw.Length <= XLEN_MAX && layout.n == |recs| && HoldsCpv(raw[..], layout.version, Reading(host, layout.swap), recs)
    ensures Filling(b, Loaded(layout.version, recs, loc), layout.n) && Fresh(b)
  {
    ghost var s, target := raw[..], Loaded(layout.version, recs, loc);
    b := new Builder(layout.n);
    var i, off := 0, 0;
    while i < layout.n
      invariant i <= layout.n && off == Start(recs, i) && raw[..] == s && raw !in Owned(b.shard.slices.nodes)
      invariant Filling(b, target, i) && Fresh(b)
    {
      off := LoadNext(b, raw, layout, host, loc, i, off, recs, target);
      i := i + 1;
    }
  }

  // Writing.

  /** A word written little-endian on any host. */
  method WriteLittle(raw: array<byte>, at: nat, x: nat, w: nat, host: Order, ghost image: seq<byte>)
    requires at + w <= raw.Length == |image| && x < Pow256(w) && image[at..at + w] == Word(x, w, Little)
    requires Matches(raw, image, 0, at)
    modifies raw
    ensures Matches(raw, image, 0, at + w)
  {
    var word := if host.Little? then x else Swap(x, w);
    LittleWord(x, w, host);
    WritePiece(raw, at, Word(word, w, host), image);
  }

  lemma {:induction false} LittleWord(x: nat, w: nat, host: Order)
    requires x < Pow256(w)
    ensures Word(if host.Little? then x else Swap(x, w), w, host) == Word(x, w, Little)
  {
    if host.Big? {
      ValueOfWord(x, w, Big);
      SwapReverses(Word(x, w, Big), Big);
      WordFlip(x, w, Big);
    }
  }

  lemma {:induction false} SizeThere(s: seq<byte>, v: Version, o: Order, recs: seq<Rec>, i: nat)
    requires WritesCpv(s, v, o, recs) && i < |recs|
    ensures PREFIX + BytesStart(|recs|, false) <= |s| && |recs[i].Bytes()| < Pow256(4)
    ensures s[PREFIX + HEADER + 4 * i..PREFIX + HEADER + 4 * i + 4] == Word(|recs[i].Bytes()|, 4, o)
  {
    var body := s[PREFIX..];
    PowWidths();
    assert Here(i) && BodyFields(recs).ends[i] == |recs[i].Bytes()|;
    EndWord(body, false, i, o);
    assert s[PREFIX..|s|] == body;
    Nested(s, PREFIX, |s|, HEADER + 4 * i, HEADER + 4 * i + 4);
  }

  lemma {:induction false} CountThere(s: seq<byte>, v: Version, o: Order, recs: seq<Rec>)
    requires WritesCpv(s, v, o, recs)
    ensures PREFIX + HEADER <= |s| == PREFIX + BytesStart(|recs|, false) + Total(recs) && |recs| < Pow256(8)
    ensures s[..PREFIX] == Prefix(v, o) && s[PREFIX..PREFIX + HEADER] == Word(|recs|, HEADER, o)
  {
    PowWidths();
    PayloadLength(recs);
    HeadWord(s[PREFIX..], o);
    assert s[PREFIX..PREFIX + HEADER] == s[PREFIX..][..HEADER];
  }

  /** What a laid-out table's entries have to do with its records. */
  lemma {:induction false} EntryRecord(rows: seq<Row>, blocks: set<array<byte>>, i: nat)
    requires Laid(rows, blocks) && i < |rows|
    ensures RowRec(rows[i]).Tag() == rows[i].enc
    ensures |RowRec(rows[i]).Bytes()| == if rows[i].len < 0 then 0 else rows[i].len
    ensures RowRec(rows[i]).Str? ==> |RowRec(rows[i]).bytes| <= STRING_MAX && rows[i].enc != NA_TAG
  {
    assert RowOk(rows[i], blocks);
  }

  lemma {:induction false} TableStorable(rows: seq<Row>, blocks: set<array<byte>>)
    requires Laid(rows, blocks) && |rows| <= MAX_CAPACITY
    ensures Storable(RecsOf(rows))
  {
    forall i | 0 <= i < |rows| && RowRec(rows[i]).Str?
      ensures |RowRec(rows[i]).bytes| <= STRING_MAX && RowRec(rows[i]).tag != NA_TAG
    {
      EntryRecord(rows, blocks, i);
    }
  }

  method WriteSize(raw: array<byte>, at: nat, size: nat, host: Order, ghost image: seq<byte>, ghost recs: seq<Rec>, ghost i: nat)
    requires raw.Length == |image| && WritesCpv(image, Cpv2, Little, recs) && i < |recs| && size == |recs[i].Bytes()|
    requires at == PREFIX + HEADER + 4 * i && at + 4 <= raw.Length && Matches(raw, image, 0, at)
    modifies raw
    ensures Matches(raw, image, 0, at + 4)
  {
    SizeThere(image, Cpv2, Little, recs, i);
    WriteLittle(raw, at, size, 4, host, image);
  }

  /** Writes the sizes. */
  method WriteSizes(raw: array<byte>, rows: seq<Row>, host: Order, ghost image: seq<byte>, ghost recs: seq<Rec>)
    requires raw.Length == |image| && WritesCpv(image, Cpv2, Little, recs) && |rows| == |recs|
    requires forall i :: 0 <= i < |rows| ==> |recs[i].Bytes()| == if rows[i].len < 0 then 0 else rows[i].len
    requires Matches(raw, image, 0, PREFIX + HEADER)
    modifies raw
    ensures PREFIX + TagsStart(|rows|, false) <= raw.Length && Matches(raw, image, 0, PREFIX + TagsStart(|rows|, false))
  {
    CountThere(image, Cpv2, Little, recs);
    var i := 0;
    while i < |rows|
      invariant i <= |rows| && Matches(raw, image, 0, PREFIX + HEADER + 4 * i)
    {
      WriteSize(raw, PREFIX + HEADER + 4 * i, if rows[i].len < 0 then 0 else rows[i].len, host, image, recs, i);
      i := i + 1;
    }
  }

  method WriteTag(raw: array<byte>, at: nat, tag: byte, ghost image: seq<byte>, ghost recs: seq<Rec>, ghost i: nat)
    requires raw.Length == |image| && WritesCpv(image, Cpv2, Little, recs) && i < |recs| && tag == recs[i].Tag()
    requires at == PREFIX + TagsStart(|recs|, false) + i < raw.Length && Matches(raw, image, 0, at)
    modifies raw
    ensures Matches(raw, image, 0, at + 1)
  {
    RecordThere(image, Cpv2, Little, recs, i);
    raw[at] := tag;
  }

  /** Writes the tags. */
  method WriteTags(raw: array<byte>, rows: seq<Row>, ghost image: seq<byte>, ghost recs: seq<Rec>)
    requires raw.Length == |image| && WritesCpv(image, Cpv2, Little, recs) && |rows| == |recs|
    requires forall i :: 0 <= i < |rows| ==> recs[i].Tag() == rows[i].enc
    requires PREFIX + TagsStart(|rows|, false) <= raw.Length && Matches(raw, image, 0, PREFIX + TagsStart(|rows|, false))
    modifies raw
    ensures PREFIX + BytesStart(|rows|, false) <= raw.Length && Matches(raw, image, 0, PREFIX + BytesStart(|rows|, false))
  {
    CountThere(image, Cpv2, Little, recs);
    var i := 0;
    while i < |rows|
      invariant i <= |rows| && Matches(raw, image, 0, PREFIX + TagsStart(|rows|, false) + i)
    {
      WriteTag(raw, PREFIX + TagsStart(|rows|, false) + i, rows[i].enc, image, recs, i);
      i := i + 1;
    }
  }

  /** Record i's bytes are in their place in a payload that starts at m. */
  ghost predicate BytesIn(image: seq<byte>, m: nat, recs: seq<Rec>, i: nat)
    requires i < |recs|
  {
    && Start(recs, i + 1) == Start(recs, i) + |recs[i].Bytes()|
    && m + Start(recs, i + 1) <= |image|
    && image[m + Start(recs, i)..m + Start(recs, i + 1)] == recs[i].Bytes()
  }

  ghost predicate BytesAt(image: seq<byte>, m: nat, recs: seq<Rec>) {
    forall i :: 0 <= i < |recs| ==> BytesIn(image, m, recs, i)
  }

  lemma {:induction false} PayloadThere(s: seq<byte>, v: Version, o: Order, recs: seq<Rec>, m: nat)
    requires WritesCpv(s, v, o, recs) && m == PREFIX + BytesStart(|recs|, false)
    ensures |s| == m + Total(recs) && BytesAt(s, m, recs)
  {
    CountThere(s, v, o, recs);
    forall i | 0 <= i < |recs|
      ensures BytesIn(s, m, recs, i)
    {
      RecordThere(s, v, o, recs, i);
    }
  }

  /** Entry by entry, the table denotes recs. */
  ghost predicate Denotes(rows: seq<Row>, recs: seq<Rec>)
    reads BlocksOf(rows)
  {
    |rows| == |recs| && forall k {:trigger RowRec(rows[k])} :: 0 <= k < |rows| ==> RowRec(rows[k]) == recs[k]
  }

  /** Writes record i's bytes and says where the next record's go. The payload starts at m. */
  method WriteBytesOf(raw: array<byte>, rows: seq<Row>, i: nat, at: nat, ghost m: nat, ghost image: seq<byte>, ghost recs: seq<Rec>,
                      ghost blocks: set<array<byte>>)
    returns (next: nat)
    requires raw.Length == |image| && Denotes(rows, recs) && i < |rows| && BytesIn(image, m, recs, i)
    requires Laid(rows, blocks) && raw !in blocks
    requires at == m + Start(recs, i) && Matches(raw, image, 0, at)
    modifies raw
    ensures next == m + Start(recs, i + 1) <= raw.Length && Matches(raw, image, 0, next)
    ensures Denotes(rows, recs)
  {
    var row := rows[i];
    assert RowOk(row, blocks) && RowRec(row) == recs[i];
    next := at;
    if row.len > 0 {
      WritePiece(raw, at, row.ptr.block[row.ptr.off..row.ptr.off + row.len], image);
      next := at + row.len;
    }
    forall k | 0 <= k < |rows|
      ensures RowRec(rows[k]) == recs[k]
    {
      assert RowOk(rows[k], blocks) && old(RowRec(rows[k])) == recs[k];
    }
  }

  /** Writes every record's bytes, end to end, from m on. */
  method WritePayload(raw: array<byte>, rows: seq<Row>, m: nat, ghost image: seq<byte>, ghost recs: seq<Rec>, ghost blocks: set<array<byte>>)
    requires raw.Length == |image| == m + Total(recs) && BytesAt(image, m, recs) && Denotes(rows, recs)
    requires Laid(rows, blocks) && raw !in blocks && Matches(raw, image, 0, m)
    modifies raw
    ensures raw[..] == image && Denotes(rows, recs)
  {
    var i, at := 0, m;
    while i < |rows|
      invariant i <= |rows| && at == m + Start(recs, i) <= raw.Length
      invariant Matches(raw, image, 0, at) && Denotes(rows, recs)
    {
      at := WriteBytesOf(raw, rows, i, at, m, image, recs, blocks);
      i := i + 1;
    }
    MatchesAll(raw, image);
  }

  /** The payload's size, if it fits a size_t. */
  method PayloadSize(rows: seq<Row>, ghost recs: seq<Rec>) returns (r: Option<usize>)
    requires |rows| == |recs| && forall i :: 0 <= i < |rows| ==> |recs[i].Bytes()| == if rows[i].len < 0 then 0 else rows[i].len
    ensures r == if Total(recs) < U64_LIMIT then Some(Total(recs)) else None
  {
    var total: usize := 0;
    var i := 0;
    while i < |rows|
      invariant i <= |rows| && total == Start(recs, i)
    {
      StartMonotone(recs, i + 1, |recs|);
      var len := if rows[i].len < 0 then 0 else rows[i].len;
      if total > U64_LIMIT - 1 - len {
        return None;
      }
      total := total + len;
      i := i + 1;
    }
    r := Some(total);
  }

  /** The largest R_xlen_t. */
  const XLEN_LIMIT := 0x7fff_ffff_ffff_ffff

  /** Writes everything that comes before the payload. */
  method WriteFront(raw: array<byte>, rows: seq<Row>, host: Order, ghost image: seq<byte>, ghost recs: seq<Rec>)
    requires raw.Length == |image| && WritesCpv(image, Cpv2, Little, recs) && |rows| == |recs|
    requires forall i :: 0 <= i < |rows| ==> |recs[i].Bytes()| == if rows[i].len < 0 then 0 else rows[i].len
    requires forall i :: 0 <= i < |rows| ==> recs[i].Tag() == rows[i].enc
    modifies raw
    ensures PREFIX + BytesStart(|rows|, false) <= raw.Length && Matches(raw, image, 0, PREFIX + BytesStart(|rows|, false))
  {
    CountThere(image, Cpv2, Little, recs);
    WritePiece(raw, 0, Prefix(Cpv2, Little), image);
    WriteLittle(raw, PREFIX, |rows|, HEADER, host, image);
    WriteSizes(raw, rows, host, image, recs);
    WriteTags(raw, rows, image, recs);
  }

  /** The same, and the table is not in the buffer. */
  method WriteFrontOf(raw: array<byte>, rows: seq<Row>, host: Order, ghost image: seq<byte>, ghost recs: seq<Rec>, ghost blocks: set<array<byte>>)
    requires Denotes(rows, recs) && WritesCpv(image, Cpv2, Little, recs) && Laid(rows, blocks) && raw !in blocks
    requires raw.Length == |image|
    requires forall i :: 0 <= i < |rows| ==> |recs[i].Bytes()| == if rows[i].len < 0 then 0 else rows[i].len
    requires forall i :: 0 <= i < |rows| ==> recs[i].Tag() == rows[i].enc
    modifies raw
    ensures PREFIX + BytesStart(|rows|, false) <= raw.Length && Matches(raw, image, 0, PREFIX + BytesStart(|rows|, false))
    ensures Denotes(rows, recs)
  {
    WriteFront(raw, rows, host, image, recs);
    forall k | 0 <= k < |rows|
      ensures RowRec(rows[k]) == recs[k]
    {
      assert RowOk(rows[k], blocks) && old(RowRec(rows[k])) == recs[k];
    }
  }

  /** Writes the whole state into a buffer of its size. */
  method WriteAll(raw: array<byte>, rows: seq<Row>, host: Order, ghost image: seq<byte>, ghost recs: seq<Rec>, ghost blocks: set<array<byte>>)
    requires Denotes(rows, recs) && WritesCpv(image, Cpv2, Little, recs) && Laid(rows, blocks) && raw !in blocks
    requires raw.Length == |image|
    requires forall i :: 0 <= i < |rows| ==> |recs[i].Bytes()| == if rows[i].len < 0 then 0 else rows[i].len
    requires forall i :: 0 <= i < |rows| ==> recs[i].Tag() == rows[i].enc
    modifies raw
    ensures raw[..] == image && Denotes(rows, recs)
  {
    WriteFrontOf(raw, rows, host, image, recs, blocks);
    var m := PREFIX + BytesStart(|rows|, false);
    PayloadThere(image, Cpv2, Little, recs, m);
    WritePayload(raw, rows, m, image, recs, blocks);
  }

  /** Writes the packed state of a Store, or reports that it would be too large. */
  method WriteState(store: Store, host: Order) returns (r: Option<array<byte>>)
    requires store.Valid()
    ensures r.None? <==> PREFIX + BytesStart(|store.Contents()|, false) + Total(store.Contents()) > XLEN_MAX
    ensures r.Some? ==> fresh(r.value) && r.value.Length <= XLEN_MAX && r.value[..] == CpvImage(Cpv2, Little, store.Contents())
    ensures store.Contents() == old(store.Contents())
  {
    var rows := store.records.rows;
    ghost var recs, blocks := RecsOf(rows), Owned(store.slices.nodes);
    TableStorable(rows, blocks);
    forall i | 0 <= i < |rows|
      ensures |recs[i].Bytes()| == (if rows[i].len < 0 then 0 else rows[i].len) && recs[i].Tag() == rows[i].enc
    {
      EntryRecord(rows, blocks, i);
    }
    var payload := PayloadSize(rows, recs);
    assert RecsOf(rows) == recs;
    if payload.None? {
      return None;
    }
    var total := PREFIX + BytesStart(|rows|, false) + payload.value;
    if total > XLEN_LIMIT {
      return None;
    }
    // R allocates no raw vector that large.
    if total > XLEN_MAX {
      return None;
    }
    var raw := new byte[total];
    assert RecsOf(rows) == recs;
    ghost var image := CpvImage(Cpv2, Little, recs);
    WritesCpvImage(image, Cpv2, Little, recs);
    CountThere(image, Cpv2, Little, recs);
    WriteAll(raw, rows, host, image, recs, blocks);
    assert RecsOf(rows) == recs;
    r := Some(raw);
  }
}
