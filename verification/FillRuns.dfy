/** Fills from start to end: a parallel fill gives the Store a serial one gives,
    and so does a Writer. */
module FillRuns {
  import opened Records
  import opened Allocator
  import opened Chain
  import opened Stores
  import opened Builders
  import opened GrowableBuilders
  import opened Writers
  import opened Schedules
  import opened ParallelBuilders

  ghost predicate AllReadable(calls: seq<Call>) {
    forall k :: 0 <= k < |calls| ==> calls[k].value.Readable()
  }

  /** The bytes that the calls take which succeed on n records. */
  function Lens(n: nat, calls: seq<Call>): seq<nat> {
    if calls == [] then []
    else
      var front, c := Lens(n, calls[..|calls| - 1]), calls[|calls| - 1];
      if c.idx < n && c.value.Taken() <= STRING_MAX then front + [c.value.Taken()] else front
  }

  lemma {:induction false} OneMoreLen(b: Bump, n: nat, calls: seq<Call>, k: nat)
    requires k < |calls|
    ensures var front, c := TakeAll(b, n, Lens(n, calls[..k])), calls[k];
            TakeAll(b, n, Lens(n, calls[..k + 1])) ==
              if c.idx < n && c.value.Taken() <= STRING_MAX then front.Take(n, c.value.Taken()) else front
  {
    var lens := Lens(n, calls[..k]);
    assert calls[..k + 1][..k] == calls[..k];
    assert (lens + [calls[k].value.Taken()])[..|lens|] == lens;
  }

  lemma {:induction false} OneMoreCall(recs: seq<Rec>, calls: seq<Call>, k: nat)
    requires k < |calls|
    ensures var front, c := Serial(recs, calls[..k]), calls[k];
            Serial(recs, calls[..k + 1]) ==
              if c.idx < |front| && c.value.Taken() <= STRING_MAX then front[c.idx := c.value.Rec()] else front
  {
    assert calls[..k + 1][..k] == calls[..k];
  }

  lemma {:induction false} SerialLength(recs: seq<Rec>, calls: seq<Call>)
    ensures |Serial(recs, calls)| == |recs|
  {
    if calls != [] {
      SerialLength(recs, calls[..|calls| - 1]);
    }
  }

  /** The calls of a schedule, made one after another on a serial builder. */
  method RunSerial(b: Builder, calls: seq<Call>)
    requires b.Valid() && AllReadable(calls)
    modifies b.store.records, b.shard, b.shard.slices, Owned(b.shard.slices.nodes)
    ensures b.Valid() && b.Contents() == Serial(old(b.Contents()), calls)
    ensures b.shard.Cursor() == TakeAll(old(b.shard.Cursor()), |old(b.Contents())|, Lens(|old(b.Contents())|, calls))
    ensures forall m :: 0 <= m < |b.shard.slices.nodes| ==>
              b.shard.slices.nodes[m] in old(b.shard.slices.nodes)
              || (fresh(b.shard.slices.nodes[m]) && fresh(b.shard.slices.nodes[m].data))
  {
    ghost var recs, cursor := b.Contents(), b.shard.Cursor();
    var k := 0;
    while k < |calls|
      invariant k <= |calls| && b.Valid() && b.Contents() == Serial(recs, calls[..k])
      invariant b.shard.Cursor() == TakeAll(cursor, |recs|, Lens(|recs|, calls[..k]))
      invariant forall m :: 0 <= m < |b.shard.slices.nodes| ==>
                  b.shard.slices.nodes[m] in old(b.shard.slices.nodes)
                  || (fresh(b.shard.slices.nodes[m]) && fresh(b.shard.slices.nodes[m].data))
    {
      OneMoreCall(recs, calls, k);
      OneMoreLen(cursor, |recs|, calls, k);
      SerialLength(recs, calls[..k]);
      var r := b.Set(calls[k].idx, calls[k].value);
      k := k + 1;
    }
    assert calls[..k] == calls;
  }

  lemma {:induction false} UnfilledRecs(n: nat, shards: nat)
    ensures Recs(Unfilled(n, shards)) == seq(n, _ => NA)
  {
  }

  /** Releasing a parallel builder, whatever it owns. */
  method Release(p: ParallelBuilder, ghost lists: seq<seq<Slice>>, ghost state: State, ghost own: set<object>) returns (out: Store)
    requires p.Is(lists, state) && Holds(own, p, lists)
    modifies own
    ensures out.Valid() && out.Contents() == Recs(state)
  {
    out := p.ReleaseStore(lists, state);
  }

  /** A new parallel builder, and all it owns. */
  method Start(n: nat, shards: nat) returns (p: ParallelBuilder, ghost lists: seq<seq<Slice>>, ghost own: set<object>)
    requires n <= MAX_CAPACITY && shards > 0
    ensures p.Is(lists, Unfilled(n, shards)) && Holds(own, p, lists) && fresh(own)
  {
    lists := NoSlices(shards);
    FlattenEmpty(lists);
    p := new ParallelBuilder(n, shards);
    ghost var workers: set<object>, chains: set<object> := (set x | x in p.shards), Chains(p.shards);
    assert fresh(workers) && fresh(chains);
    own := {p.store.slices, p.store.records} + workers + chains;
  }

  /** The Store of a parallel fill. */
  method FillParallel(n: nat, shards: nat, calls: seq<Call>) returns (out: Store)
    requires n <= MAX_CAPACITY && shards > 0 && AllReadable(calls)
    ensures out.Valid() && out.Contents() == Recs(Run(Unfilled(n, shards), calls))
  {
    var p;
    ghost var lists, own, after;
    p, lists, own := Start(n, shards);
    after, own := RunSchedule(p, calls, lists, Unfilled(n, shards), own);
    out := Release(p, after, Run(Unfilled(n, shards), calls), own);
  }

  /** The Store of a serial fill. */
  method FillSerial(n: nat, calls: seq<Call>) returns (out: Store)
    requires n <= MAX_CAPACITY && AllReadable(calls)
    ensures out.Valid() && out.Contents() == Serial(seq(n, _ => NA), calls)
    ensures Sizes(out.slices.nodes) == TakeAll(FRESH, n, Lens(n, calls)).caps
  {
    var b := new Builder(n);
    RunSerial(b, calls);
    ghost var nodes := b.shard.slices.nodes;
    assert nodes + [] == nodes;
    out := b.ReleaseStore();
  }

  /** The same workers, run in parallel under one schedule and serially in the
      order of another, give Stores of the same records. */
  method FillBoth(n: nat, shards: nat, one: seq<Call>, two: seq<Call>, ghost owner: seq<nat>) returns (parallel: Store, serial: Store)
    requires n <= MAX_CAPACITY && shards > 0 && AllReadable(one) && AllReadable(two)
    requires OneOwner(one, owner) && OneOwner(two, owner) && |owner| == n
    requires forall shard {:trigger Project(one, shard)} :: Project(one, shard) == Project(two, shard)
    requires forall k :: 0 <= k < |two| ==> two[k].shard < shards
    ensures parallel.Valid() && serial.Valid() && parallel.Contents() == serial.Contents()
    ensures parallel.Contents() == Serial(seq(n, _ => NA), two)
  {
    UnfilledRecs(n, shards);
    SchedulesAgreeWithSerial(Unfilled(n, shards), one, two, owner);
    parallel := FillParallel(n, shards, one);
    ghost var recs := parallel.Contents();
    serial := FillSerial(n, two);
    assert parallel.Valid() && parallel.Contents() == recs;
  }

  /** The same calls made on a Writer, from a cursor that matches a builder's. */
  method RunWriter(w: Writer, calls: seq<Call>, ghost bump: Bump)
    requires w.Valid() && AllReadable(calls) && Matches(w.At(), bump) && Sizes(w.store.slices.nodes) == bump.caps
    modifies w, w.store.slices, w.store.records, Owned(w.store.slices.nodes)
    ensures w.Valid() && w.store.Contents() == Serial(old(w.store.Contents()), calls)
    ensures var b := TakeAll(bump, |old(w.store.Contents())|, Lens(|old(w.store.Contents())|, calls));
            Matches(w.At(), b) && Sizes(w.store.slices.nodes) == b.caps
  {
    ghost var recs, n := w.store.Contents(), |w.store.Contents()|;
    var k := 0;
    while k < |calls|
      invariant k <= |calls| && w.Valid() && w.store.Contents() == Serial(recs, calls[..k])
      invariant Matches(w.At(), TakeAll(bump, n, Lens(n, calls[..k])))
      invariant Sizes(w.store.slices.nodes) == TakeAll(bump, n, Lens(n, calls[..k])).caps
      invariant forall m :: 0 <= m < |w.store.slices.nodes| ==>
                  w.store.slices.nodes[m] in old(w.store.slices.nodes)
                  || (fresh(w.store.slices.nodes[m]) && fresh(w.store.slices.nodes[m].data))
    {
      OneMoreCall(recs, calls, k);
      OneMoreLen(bump, n, calls, k);
      SerialLength(recs, calls[..k]);
      CopyNext(w, calls[k], TakeAll(bump, n, Lens(n, calls[..k])));
      k := k + 1;
    }
    assert calls[..k] == calls;
  }

  /** One call: the Writer opens a slice exactly when the builder would, of the same size. */
  method CopyNext(w: Writer, c: Call, ghost b: Bump)
    requires w.Valid() && c.value.Readable() && Matches(w.At(), b) && Sizes(w.store.slices.nodes) == b.caps
    modifies w, w.store.slices, w.store.records, Owned(w.store.slices.nodes)
    ensures w.Valid()
    ensures var recs, v := old(w.store.Contents()), c.value;
            if c.idx < |recs| && v.Taken() <= STRING_MAX then
              && w.store.Contents() == recs[c.idx := v.Rec()]
              && Matches(w.At(), b.Take(|recs|, v.Taken())) && Sizes(w.store.slices.nodes) == b.Take(|recs|, v.Taken()).caps
            else w.store.Contents() == recs && Matches(w.At(), b) && Sizes(w.store.slices.nodes) == b.caps
    ensures forall m :: 0 <= m < |w.store.slices.nodes| ==>
              w.store.slices.nodes[m] in old(w.store.slices.nodes)
              || (fresh(w.store.slices.nodes[m]) && fresh(w.store.slices.nodes[m].data))
  {
    if c.value.Taken() <= STRING_MAX {
      MatchStep(w.At(), b, |w.store.records.rows|, c.value.Taken());
    }
    var r := w.Copy(c.idx, c.value);
  }

  /** A Writer over a new Store gives the Store that a serial builder gives: the
      same records, in slices of the same sizes. */
  method FillWriter(n: nat, calls: seq<Call>) returns (out: Store)
    requires n <= MAX_CAPACITY && AllReadable(calls)
    ensures out.Valid() && out.Contents() == Serial(seq(n, _ => NA), calls)
    ensures Sizes(out.slices.nodes) == TakeAll(FRESH, n, Lens(n, calls)).caps
  {
    out := new Store(n, 0);
    ghost var recs := out.Contents();
    assert recs == seq(n, _ => NA);
    var w := new Writer(out);
    assert w.store.Contents() == recs;
    RunWriter(w, calls, FRESH);
  }

  /** What appending gives, as long as a table may grow. */
  function Appended(recs: seq<Rec>, values: seq<Source>): seq<Rec> {
    if values == [] then recs
    else
      var front, v := Appended(recs, values[..|values| - 1]), values[|values| - 1];
      if v.Taken() <= STRING_MAX && |front| < MAX_CAPACITY then front + [v.Rec()] else front
  }

  /** Appending value after value to a growable builder. */
  method RunAppends(b: GrowableBuilder, values: seq<Source>)
    requires b.Valid() && forall k :: 0 <= k < |values| ==> values[k].Readable()
    modifies b.store.records, b.shard, b.shard.slices, Owned(b.shard.slices.nodes)
    ensures b.Valid() && b.Contents() == Appended(old(b.Contents()), values)
  {
    ghost var recs := b.Contents();
    var k := 0;
    while k < |values|
      invariant k <= |values| && b.Valid() && b.Contents() == Appended(recs, values[..k])
      invariant forall m :: 0 <= m < |b.shard.slices.nodes| ==>
                  b.shard.slices.nodes[m] in old(b.shard.slices.nodes)
                  || (fresh(b.shard.slices.nodes[m]) && fresh(b.shard.slices.nodes[m].data))
    {
      assert values[..k + 1][..k] == values[..k];
      ghost var was := b.shard.slices.nodes;
      var r := b.Append(values[k]);
      assert forall m :: 0 < m < |b.shard.slices.nodes| && b.shard.slices.nodes != was ==> b.shard.slices.nodes[m] == was[m - 1];
      k := k + 1;
    }
    assert values[..k] == values;
  }
}
