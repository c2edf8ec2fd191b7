/** Whole-vector constructions over the serial builder: from R strings, from
    caller-owned views, and by subsetting another Store. */
module Construction {
  import opened Records
  import opened RStrings
  import opened Chain
  import opened Stores
  import opened Builders
  import opened PackSubset
  import PackFill

  /** Records up to k are in place, the rest are still NA. */
  ghost predicate Filling(b: Builder, target: seq<Rec>, k: nat)
    reads b, b.store, b.store.slices, b.store.slices.nodes, b.store.records, BlocksOf(b.store.records.rows)
    reads b.shard, b.shard.slices, b.shard.slices.nodes
  {
    b.Valid() && k <= |target| && b.Contents() == target[..k] + seq(|target| - k, _ => NA)
  }

  lemma {:induction false} FillingStep(was: seq<Rec>, target: seq<Rec>, k: nat)
    requires k < |target| && was == target[..k] + seq(|target| - k, _ => NA)
    ensures was[k := target[k]] == target[..k + 1] + seq(|target| - (k + 1), _ => NA)
    ensures target[k].NA? ==> was == target[..k + 1] + seq(|target| - (k + 1), _ => NA)
  {
  }

  /** Everything the builder would write to is new. */
  twostate predicate Fresh(new b: Builder)
    reads b, b.store, b.store.slices, b.store.records, b.shard, b.shard.slices
  {
    && fresh(b) && fresh(b.store) && fresh(b.store.slices) && fresh(b.store.records) && fresh(b.shard) && fresh(b.shard.slices)
    && b.store.slices.nodes == []
    && forall k :: 0 <= k < |b.shard.slices.nodes| ==> fresh(b.shard.slices.nodes[k]) && fresh(b.shard.slices.nodes[k].data)
  }

  /** Every slice is one there was, or new. */
  twostate predicate OnlyNew(new nodes: seq<Slice>, was: seq<Slice>) {
    forall k :: 0 <= k < |nodes| ==> nodes[k] in was || (fresh(nodes[k]) && fresh(nodes[k].data))
  }

  /** Puts the next record in place. */
  method SetNext(b: Builder, value: Source, ghost target: seq<Rec>, k: nat)
    requires k < |target| <= MAX_CAPACITY && Filling(b, target, k)
    requires value.Readable() && value.Taken() <= STRING_MAX && value.Rec() == target[k]
    modifies b.store.records, b.shard, b.shard.slices, Owned(b.shard.slices.nodes)
    ensures Filling(b, target, k + 1) && Grown(b.shard.slices.nodes, old(b.shard.slices.nodes))
    ensures OnlyNew(b.shard.slices.nodes, old(b.shard.slices.nodes))
  {
    ghost var was := b.shard.slices.nodes;
    FillingStep(b.Contents(), target, k);
    var r := b.Set(k, value);
    assert forall i :: 0 < i < |b.shard.slices.nodes| && b.shard.slices.nodes != was ==> b.shard.slices.nodes[i] == was[i - 1];
  }

  /** What a builder is given of a view. */
  function SourceOf(v: View): Source {
    if v.IsNa() then Source(None, 0, NA_TAG) else Source(v.ptr, if v.len < 0 then 0 else v.len, v.enc)
  }

  function FromStrings(xs: seq<RString>): (recs: seq<Rec>)
    ensures |recs| == |xs|
  {
    seq(|xs|, i requires 0 <= i < |xs| => FromString(xs[i]))
  }

  /** A Store of the strings of a character vector. */
  method StoreFromChars(xs: seq<RString>) returns (out: Store)
    requires |xs| <= MAX_CAPACITY && forall i :: 0 <= i < |xs| ==> xs[i].Chars? ==> |xs[i].bytes| <= STRING_MAX
    ensures out.Valid() && fresh(out) && out.Contents() == FromStrings(xs)
  {
    var b := new Builder(|xs|);
    var i := 0;
    while i < |xs|
      invariant i <= |xs| && Filling(b, FromStrings(xs), i) && Fresh(b)
    {
      SetNext(b, SourceOf(StringView(xs[i])), FromStrings(xs), i);
      i := i + 1;
    }
    out := b.ReleaseStore();
  }

  /** A new charvec of caller-owned views: the records are those that filling a
      charpack with the same views gives. */
  method FromViews(c: PackFill.ViewCall) returns (r: Result<Store, PackFill.FillError>)
    requires c.Callable()
    ensures r.Ok? <==> 0 <= c.n <= MAX_CAPACITY && (c.n > 0 ==> c.Given() && forall i :: 0 <= i < c.n ==> c.Passes(i))
    ensures r.Err? ==>
              if c.n < 0 then r.error == PackFill.NegativeCount
              else if c.n > 0 && !c.Given() then r.error == PackFill.NullInput
              else if forall i :: 0 <= i < c.n ==> c.Passes(i) then r.error == PackFill.TooLarge
              else (r.error.InvalidEncoding? || r.error.NegativeLength?) && c.NamesFirst(r.error)
    ensures r.Ok? ==> r.value.Valid() && fresh(r.value) && r.value.Contents() == c.Recs() && c.Lists(r.value.Contents())
  {
    if c.n < 0 {
      return Err(PackFill.NegativeCount);
    }
    if c.n == 0 {
      var none := new Store(0, 0);
      return Ok(none);
    }
    if c.ptrs.None? || c.lengths.None? || c.encodings.None? {
      return Err(PackFill.NullInput);
    }
    PackFill.CallableViews(c);
    forall i | 0 <= i < c.n
      ensures c.Passes(i) <==> c.Views().Good(i)
    {
      PackFill.PassesIsGood(c, i);
    }
    var a := c.Views();
    var bad := CheckViews(a);
    if bad.Some? {
      return Err(bad.value);
    }
    PackFill.ViewsListed(c);
    if c.n > MAX_CAPACITY {
      return Err(PackFill.TooLarge);
    }
    var out := BuildViews(a);
    r := Ok(out);
  }

  /** Every record before k passes the checks and record k is the first that does not. */
  ghost predicate BadAt(a: PackFill.Input, k: nat, e: PackFill.FillError)
    requires a.Readable() && k < |a.lengths|
  {
    && a.AllGood(k)
    && ((e == PackFill.InvalidEncoding(k) && !ValidTag(a.encodings[k]))
        || (e == PackFill.NegativeLength(k) && ValidTag(a.encodings[k]) && !a.IsNa(k) && a.lengths[k] < 0))
  }

  method CheckViews(a: PackFill.Input) returns (bad: Option<PackFill.FillError>)
    requires a.Readable() && a.ptrs.Some?
    ensures bad.None? <==> a.AllGood(|a.lengths|)
    ensures bad.Some? ==> exists k :: 0 <= k < |a.lengths| && BadAt(a, k, bad.value)
  {
    var i := 0;
    while i < |a.lengths|
      invariant i <= |a.lengths| && a.AllGood(i)
    {
      bad := None;
      if !ValidTag(a.encodings[i]) {
        bad := Some(PackFill.InvalidEncoding(i));
      } else if !a.IsNa(i) && a.lengths[i] < 0 {
        bad := Some(PackFill.NegativeLength(i));
      }
      if bad.Some? {
        assert BadAt(a, i, bad.value) && !a.Good(i);
        return;
      }
      i := i + 1;
    }
    bad := None;
  }

  function ViewSource(a: PackFill.Input, i: nat): Source
    requires |a.lengths| == |a.encodings| && a.ptrs.Some? && |a.ptrs.value| == |a.lengths| && i < |a.lengths|
  {
    if a.IsNa(i) || a.lengths[i] < 0 then Source(None, 0, NA_TAG)
    else Source(a.ptrs.value[i], a.lengths[i], a.encodings[i])
  }

  method BuildViews(a: PackFill.Input) returns (out: Store)
    requires a.Readable() && a.ptrs.Some? && |a.lengths| <= MAX_CAPACITY && a.AllGood(|a.lengths|)
    ensures out.Valid() && fresh(out) && out.Contents() == PackFill.ViewRecs(a)
  {
    var b := new Builder(|a.lengths|);
    var i := 0;
    while i < |a.lengths|
      invariant i <= |a.lengths| && Filling(b, PackFill.ViewRecs(a), i) && Fresh(b)
    {
      assert a.Good(i);
      SetNext(b, ViewSource(a, i), PackFill.ViewRecs(a), i);
      i := i + 1;
    }
    out := b.ReleaseStore();
  }

  /** The view of a table entry. */
  function RowSource(r: Row): Source
    reads if r.ptr.In? then {r.ptr.block} else {}
  {
    match RowRec(r)
    case NA => Source(None, 0, NA_TAG)
    case Str(bytes, tag) => Source(Some(bytes), |bytes|, tag)
  }

  /** Copies one selected record. The builder's slices are apart from the source's. */
  method CopyElement(b: Builder, rows: seq<Row>, i: nat, ghost target: seq<Rec>, j: nat, ghost owned: set<array<byte>>)
    requires Laid(rows, owned) && Owned(b.shard.slices.nodes) !! owned && i <= |rows|
    requires j < |target| <= MAX_CAPACITY && Filling(b, target, j) && target[j] == SelectedRec(RecsOf(rows), i)
    modifies b.store.records, b.shard, b.shard.slices, Owned(b.shard.slices.nodes)
    ensures Filling(b, target, j + 1) && Grown(b.shard.slices.nodes, old(b.shard.slices.nodes))
    ensures OnlyNew(b.shard.slices.nodes, old(b.shard.slices.nodes))
    ensures Owned(b.shard.slices.nodes) !! owned && RecsOf(rows) == old(RecsOf(rows))
  {
    if i < |rows| && !rows[i].IsNa() {
      ghost var was, recs := b.shard.slices.nodes, RecsOf(rows);
      assert RowOk(rows[i], owned);
      SetNext(b, RowSource(rows[i]), target, j);
      GrownOwned(b.shard.slices.nodes, was);
      forall k | 0 <= k < |rows|
        ensures RowRec(rows[k]) == recs[k]
      {
        assert RowOk(rows[k], owned);
      }
    } else {
      FillingStep(b.Contents(), target, j);
    }
  }

  /** Copies the selected records into a new Store, which shares nothing with the old. */
  method SubsetStore(source: Store, sub: Subscripts) returns (out: Store)
    requires source.Valid() && sub.Size() <= MAX_CAPACITY
    ensures out.Valid() && fresh(out) && fresh(out.slices) && fresh(out.records)
    ensures forall k :: 0 <= k < |out.slices.nodes| ==> fresh(out.slices.nodes[k]) && fresh(out.slices.nodes[k].data)
    ensures source.Contents() == old(source.Contents()) && out.Contents() == Subset(source.Contents(), sub)
  {
    var rows := source.records.rows;
    ghost var recs := RecsOf(rows);
    var b := SubsetBuilder(rows, sub, Owned(source.slices.nodes));
    assert RecsOf(rows) == recs;
    out := b.ReleaseStore();
    assert RecsOf(rows) == recs;
  }

  /** A builder that holds the selected records. */
  method SubsetBuilder(rows: seq<Row>, sub: Subscripts, ghost owned: set<array<byte>>) returns (b: Builder)
    requires Laid(rows, owned) && sub.Size() <= MAX_CAPACITY
    ensures RecsOf(rows) == old(RecsOf(rows)) && Filling(b, Subset(RecsOf(rows), sub), sub.Size()) && Fresh(b)
  {
    ghost var recs := RecsOf(rows);
    ghost var target := Subset(recs, sub);
    b := new Builder(sub.Size());
    var j := 0;
    while j < sub.Size()
      invariant j <= sub.Size() && Filling(b, target, j) && Fresh(b)
      invariant RecsOf(rows) == recs && Owned(b.shard.slices.nodes) !! owned
    {
      CopyElement(b, rows, sub.Selected(j, |rows|), target, j, owned);
      j := j + 1;
    }
  }
}
