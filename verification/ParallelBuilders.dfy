/** The parallel builder: one record table, one shard of slices per worker. */
module ParallelBuilders {
  import opened Records
  import opened Allocator
  import opened Chain
  import opened Stores
  import opened Builders
  import opened Schedules

  /** Every shard's slices in the order the finished chain has them: the last
      shard's first. */
  ghost function Flatten(lists: seq<seq<Slice>>): seq<Slice> {
    if lists == [] then [] else lists[|lists| - 1] + Flatten(lists[..|lists| - 1])
  }

  /** What k shards have before they open any. */
  ghost function NoSlices(k: nat): (lists: seq<seq<Slice>>)
    ensures |lists| == k && forall t :: 0 <= t < k ==> lists[t] == []
  {
    seq(k, _ => [])
  }

  lemma {:induction false} FlattenOwns(lists: seq<seq<Slice>>, t: nat)
    requires t < |lists|
    ensures Owned(lists[t]) <= Owned(Flatten(lists))
  {
    var n := |lists| - 1;
    OwnedJoin(lists[n], Flatten(lists[..n]));
    if t < n {
      FlattenOwns(lists[..n], t);
    }
  }

  lemma {:induction false} FlattenUpdate(lists: seq<seq<Slice>>, t: nat, nodes: seq<Slice>)
    requires t < |lists| && Owned(lists[t]) <= Owned(nodes)
    ensures Owned(Flatten(lists[t := nodes])) == Owned(Flatten(lists)) + Owned(nodes)
  {
    var n := |lists| - 1;
    OwnedJoin(lists[n], Flatten(lists[..n]));
    OwnedJoin(lists[t := nodes][n], Flatten(lists[t := nodes][..n]));
    if t < n {
      FlattenUpdate(lists[..n], t, nodes);
      assert lists[t := nodes][..n] == lists[..n][t := nodes];
    } else {
      assert lists[t := nodes][..n] == lists[..n];
    }
  }

  /** The shards share nothing with one another or with the Store's chain. */
  ghost predicate Separate(chain: SliceChain, nodes: seq<Slice>, shards: seq<Shard>, lists: seq<seq<Slice>>) {
    && |lists| == |shards|
    && (forall t :: 0 <= t < |shards| ==> chain != shards[t].slices)
    && (forall t :: 0 <= t < |shards| ==> Apart(nodes, lists[t]))
    && (forall t, u :: 0 <= t < |shards| && 0 <= u < |shards| && t != u ==> shards[t] != shards[u] && shards[t].slices != shards[u].slices)
    && (forall t, u :: 0 <= t < |shards| && 0 <= u < |shards| && t != u ==> Apart(lists[t], lists[u]))
  }

  /** Every shard is sound, with these slices and this cursor. */
  ghost predicate ShardsAre(shards: seq<Shard>, lists: seq<seq<Slice>>, cursors: seq<Bump>)
    reads shards, set t | 0 <= t < |shards| :: shards[t].slices
    reads set t, k | 0 <= t < |shards| && 0 <= k < |shards[t].slices.nodes| :: shards[t].slices.nodes[k]
  {
    && |lists| == |cursors| == |shards|
    && forall t :: 0 <= t < |shards| ==> shards[t].Valid() && shards[t].slices.nodes == lists[t] && shards[t].Cursor() == cursors[t]
  }

  /** The rest of a shard's newest slice holds no record. */
  ghost predicate Unused(rows: seq<Row>, nodes: seq<Slice>, used: nat) {
    nodes != [] ==> Below(rows, nodes[0].data, used)
  }

  /** The entry is where the schedule's model of the fill says it is. */
  ghost predicate RowIsAt(r: Row, p: Place, lists: seq<seq<Slice>>) {
    match p
    case Nowhere(rec) => r == (if rec.NA? then NaRow() else EmptyRow(rec.tag))
    case Placed(t, k, off, rec) =>
      && t < |lists| && k < |lists[t]| && rec.Str?
      && r == Row(In(lists[t][|lists[t]| - 1 - k].data, off), |rec.bytes|, rec.tag)
  }

  /** An entry keeps its place when a shard opens a slice. */
  lemma {:induction false} RowStays(r: Row, p: Place, lists: seq<seq<Slice>>, t: nat, nodes: seq<Slice>)
    requires t < |lists| && RowIsAt(r, p, lists) && Grown(nodes, lists[t])
    ensures RowIsAt(r, p, lists[t := nodes])
  {
    if p.Placed? && p.shard == t && nodes != lists[t] {
      assert nodes[|nodes| - 1 - p.slice] == nodes[1..][|lists[t]| - 1 - p.slice];
    }
  }

  /** The entry that set writes is where the model puts it. */
  lemma {:induction false} RowWritten(ptr: Ptr, value: Source, used: nat, t: nat, lists: seq<seq<Slice>>, b: Bump)
    requires value.Readable() && value.Taken() <= STRING_MAX && t < |lists| && b.caps == Sizes(lists[t]) && b.used == used
    requires value.Taken() > 0 ==> lists[t] != [] && value.Taken() <= used && ptr == In(lists[t][0].data, used - value.Taken())
    ensures RowIsAt(RowAt(ptr, value.Taken(), value.Rec().Tag()), PlaceAt(t, b, value), lists)
  {
  }

  /** k shards, none of which has a slice. */
  method MakeShards(k: nat) returns (shards: seq<Shard>)
    ensures |shards| == k
    ensures forall t :: 0 <= t < k ==> fresh(shards[t]) && fresh(shards[t].slices) && shards[t].Valid()
    ensures forall t :: 0 <= t < k ==> shards[t].slices.nodes == [] && shards[t].Cursor() == FRESH
    ensures forall t, u :: 0 <= t < k && 0 <= u < k && t != u ==> shards[t] != shards[u] && shards[t].slices != shards[u].slices
  {
    shards := [];
    while |shards| < k
      invariant |shards| <= k
      invariant forall t :: 0 <= t < |shards| ==> fresh(shards[t]) && fresh(shards[t].slices) && shards[t].Valid()
      invariant forall t :: 0 <= t < |shards| ==> shards[t].slices.nodes == [] && shards[t].Cursor() == FRESH
      invariant forall t, u :: 0 <= t < |shards| && 0 <= u < |shards| && t != u ==> shards[t] != shards[u] && shards[t].slices != shards[u].slices
    {
      var shard := new Shard();
      shards := shards + [shard];
    }
  }

  lemma {:induction false} FlattenEmpty(lists: seq<seq<Slice>>)
    requires forall t :: 0 <= t < |lists| ==> lists[t] == []
    ensures Flatten(lists) == []
  {
    if lists != [] {
      FlattenEmpty(lists[..|lists| - 1]);
    }
  }

  /** What a builder's entries look like, in terms of its slices and its model. */
  ghost predicate RowsAre(rows: seq<Row>, nodes: seq<Slice>, lists: seq<seq<Slice>>, state: State) {
    && Laid(rows, Owned(nodes) + Owned(Flatten(lists)))
    && |state.cursors| == |lists| && (forall t :: 0 <= t < |lists| ==> Unused(rows, lists[t], state.cursors[t].used))
    && |state.places| == |rows| && (forall i :: 0 <= i < |rows| ==> RowIsAt(rows[i], state.places[i], lists))
  }

  lemma {:induction false} StartsEmpty(rows: seq<Row>, n: nat, lists: seq<seq<Slice>>, state: State)
    requires rows == seq(n, _ => NaRow()) && forall t :: 0 <= t < |lists| ==> lists[t] == []
    requires state == Unfilled(n, |lists|)
    ensures RowsAre(rows, [], lists, state)
  {
    FlattenEmpty(lists);
  }

  /** A slice that no chain has yet. */
  ghost predicate NewTo(node: Slice, nodes: seq<Slice>) {
    forall k :: 0 <= k < |nodes| ==> nodes[k] != node && nodes[k].data != node.data
  }

  /** A slice just opened is in no chain that was there before. */
  twostate lemma FreshIsNew(new node: Slice, nodes: seq<Slice>)
    requires fresh(node) && fresh(node.data)
    ensures NewTo(node, nodes)
  {
  }

  twostate lemma FreshIsNewToAll(new node: Slice, lists: seq<seq<Slice>>)
    requires fresh(node) && fresh(node.data)
    ensures forall u :: 0 <= u < |lists| ==> NewTo(node, lists[u])
  {
    forall u | 0 <= u < |lists|
      ensures NewTo(node, lists[u])
    {
      FreshIsNew(node, lists[u]);
    }
  }

  lemma {:induction false} SeparateStep(chain: SliceChain, nodes: seq<Slice>, shards: seq<Shard>, lists: seq<seq<Slice>>, t: nat, grown: seq<Slice>)
    requires Separate(chain, nodes, shards, lists) && t < |lists| && Grown(grown, lists[t])
    requires grown != lists[t] ==> NewTo(grown[0], nodes) && forall u :: 0 <= u < |lists| ==> NewTo(grown[0], lists[u])
    ensures Separate(chain, nodes, shards, lists[t := grown])
  {
    GrownApart(grown, lists[t], nodes);
    forall u | 0 <= u < |lists| && u != t
      ensures Apart(grown, lists[u]) && Apart(lists[u], grown)
    {
      GrownApart(grown, lists[t], lists[u]);
    }
  }

  lemma {:induction false} GrownApart(grown: seq<Slice>, was: seq<Slice>, nodes: seq<Slice>)
    requires Grown(grown, was) && Apart(was, nodes) && (grown != was ==> NewTo(grown[0], nodes))
    ensures Apart(grown, nodes) && Apart(nodes, grown)
  {
    forall i, j | 0 <= i < |grown| && 0 <= j < |nodes|
      ensures grown[i] != nodes[j] && grown[i].data != nodes[j].data
    {
      if grown != was && i > 0 {
        assert grown[i] == was[i - 1];
      }
    }
  }

  lemma {:induction false} StartsApart(chain: SliceChain, shards: seq<Shard>, k: nat)
    requires |shards| == k && forall t :: 0 <= t < k ==> chain != shards[t].slices
    requires forall t, u :: 0 <= t < k && 0 <= u < k && t != u ==> shards[t] != shards[u] && shards[t].slices != shards[u].slices
    ensures Separate(chain, [], shards, NoSlices(k))
  {
  }

  /** The value side of set: what a grown shard and one new entry keep. */
  lemma {:induction false} RowsStep(rows: seq<Row>, nodes: seq<Slice>, lists: seq<seq<Slice>>, state: State,
                                    chain: SliceChain, shards: seq<Shard>, c: Call, grown: seq<Slice>, ptr: Ptr, after: seq<Row>, b: Bump)
    requires RowsAre(rows, nodes, lists, state) && c.shard < |lists| && c.idx < |rows| && Accepted(state, c) && c.value.Readable()
    requires Grown(grown, lists[c.shard]) && Separate(chain, nodes, shards, lists[c.shard := grown])
    requires b == state.cursors[c.shard].Take(|rows|, c.value.Taken()) && b.caps == Sizes(grown)
    requires after == rows[c.idx := RowAt(ptr, c.value.Taken(), c.value.Rec().Tag())]
    requires c.value.Taken() > 0 ==> grown != [] && c.value.Taken() <= b.used && ptr == In(grown[0].data, b.used - c.value.Taken())
    requires Unused(after, grown, b.used) && Laid(after, Owned(nodes) + Owned(Flatten(lists)) + Owned(grown))
    ensures RowsAre(after, nodes, lists[c.shard := grown], Step(state, c)) && Step(state, c).cursors == state.cursors[c.shard := b]
    ensures Recs(Step(state, c)) == Recs(state)[c.idx := c.value.Rec()]
  {
    StepRecs(state, c);
    var t, more, next := c.shard, lists[c.shard := grown], Step(state, c);
    GrownOwned(grown, lists[t]);
    FlattenUpdate(lists, t, grown);
    assert Owned(nodes) + Owned(Flatten(more)) == Owned(nodes) + Owned(Flatten(lists)) + Owned(grown);
    forall u | 0 <= u < |more|
      ensures Unused(after, more[u], next.cursors[u].used)
    {
      assert Unused(rows, lists[u], state.cursors[u].used);
      if u != t && lists[u] != [] && c.value.Taken() > 0 {
        assert Apart(more[u], more[t]);
      }
    }
    forall j | 0 <= j < |rows|
      ensures RowIsAt(after[j], next.places[j], more)
    {
      if j == c.idx {
        RowWritten(ptr, c.value, b.used, t, more, b);
      } else {
        RowStays(rows[j], state.places[j], lists, t, grown);
      }
    }
  }

  lemma {:induction false} NothingStep(lists: seq<seq<Slice>>, state: State, c: Call, grown: seq<Slice>, b: Bump)
    requires c.shard < |lists| == |state.cursors| && !Accepted(state, c) && grown == lists[c.shard] && b == state.cursors[c.shard]
    ensures Step(state, c) == state && lists[c.shard := grown] == lists && state.cursors[c.shard := b] == state.cursors
  {
  }

  /** The value side of set, whether the call succeeds or not. */
  lemma {:induction false} SetStep(rows: seq<Row>, nodes: seq<Slice>, lists: seq<seq<Slice>>, state: State, chain: SliceChain, shards: seq<Shard>,
                                   c: Call, grown: seq<Slice>, r: Result<Ptr, BuildError>, after: seq<Row>, b: Bump)
    requires RowsAre(rows, nodes, lists, state) && c.shard < |lists| && c.value.Readable() && (r.Ok? <==> Accepted(state, c))
    requires r.Err? ==> after == rows && grown == lists[c.shard] && b == state.cursors[c.shard]
    requires r.Ok? ==>
               && Grown(grown, lists[c.shard]) && Separate(chain, nodes, shards, lists[c.shard := grown])
               && b == state.cursors[c.shard].Take(|rows|, c.value.Taken()) && b.caps == Sizes(grown)
               && after == rows[c.idx := RowAt(r.value, c.value.Taken(), c.value.Rec().Tag())]
               && (c.value.Taken() > 0 ==> grown != [] && c.value.Taken() <= b.used && r.value == In(grown[0].data, b.used - c.value.Taken()))
               && Unused(after, grown, b.used) && Laid(after, Owned(nodes) + Owned(Flatten(lists)) + Owned(grown))
    ensures RowsAre(after, nodes, lists[c.shard := grown], Step(state, c)) && Step(state, c).cursors == state.cursors[c.shard := b]
    ensures Recs(Step(state, c)) == if r.Ok? then Recs(state)[c.idx := c.value.Rec()] else Recs(state)
  {
    if r.Err? {
      NothingStep(lists, state, c, grown, b);
    } else {
      RowsStep(rows, nodes, lists, state, chain, shards, c, grown, r.value, after, b);
    }
  }

  /** The heap side of set: the other shards, and the Store's chain, stay as they are. */
  method CopyShard(store: Store, shards: seq<Shard>, t: nat, i: nat, value: Source,
                   ghost lists: seq<seq<Slice>>, ghost cursors: seq<Bump>, ghost blocks: set<array<byte>>)
    returns (r: Result<Ptr, BuildError>, ghost grown: seq<Slice>, ghost cursor: Bump)
    requires store.slices.Valid() && store.records.Valid() && ShardsAre(shards, lists, cursors)
    requires Separate(store.slices, store.slices.nodes, shards, lists) && t < |shards| && value.Readable()
    requires Laid(store.records.rows, blocks) && Owned(lists[t]) <= blocks && Unused(store.records.rows, lists[t], cursors[t].used)
    modifies store.records, shards[t], shards[t].slices, Owned(shards[t].slices.nodes)
    ensures store.slices.Valid() && store.records.Valid()
    ensures Grown(grown, lists[t])
    ensures ShardsAre(shards, lists[t := grown], cursors[t := cursor])
    ensures cursor == if r.Ok? then cursors[t].Take(|store.records.rows|, value.Taken()) else cursors[t]
    ensures cursor.caps == Sizes(grown)
    ensures grown != lists[t] ==> fresh(grown[0]) && fresh(grown[0].data)
    ensures store.slices.nodes == old(store.slices.nodes)
    ensures Laid(store.records.rows, blocks + Owned(grown)) && Unused(store.records.rows, grown, cursor.used)
    ensures r == Err(OutOfBounds) <==> i >= |old(store.records.rows)|
    ensures r == Err(TooLong) <==> i < |old(store.records.rows)| && value.Taken() > STRING_MAX
    ensures r.Err? ==> r.error in {OutOfBounds, TooLong} && store.records.rows == old(store.records.rows) && grown == lists[t]
    ensures r.Ok? ==> store.records.rows == old(store.records.rows)[i := RowAt(r.value, value.Taken(), value.Rec().Tag())]
    ensures r.Ok? && value.Taken() > 0 ==> grown != [] && r.value == In(grown[0].data, cursor.used - value.len)
    ensures RecsOf(store.records.rows) == if r.Ok? then old(RecsOf(store.records.rows))[i := value.Rec()] else old(RecsOf(store.records.rows))
  {
    r := CopyRecord(shards[t], store.records, i, value, blocks);
    grown, cursor := shards[t].slices.nodes, shards[t].Cursor();
    forall u | 0 <= u < |shards| && u != t
      ensures shards[u].Valid() && shards[u].slices.nodes == lists[u] && shards[u].Cursor() == cursors[u]
    {
      assert shards[u] != shards[t] && shards[u].slices != shards[t].slices;
    }
  }

  /** And a slice that it opens is in no other chain. */
  method CopyThrough(store: Store, shards: seq<Shard>, t: nat, i: nat, value: Source,
                     ghost lists: seq<seq<Slice>>, ghost cursors: seq<Bump>, ghost blocks: set<array<byte>>)
    returns (r: Result<Ptr, BuildError>, ghost grown: seq<Slice>, ghost cursor: Bump)
    requires store.slices.Valid() && store.records.Valid() && ShardsAre(shards, lists, cursors)
    requires Separate(store.slices, store.slices.nodes, shards, lists) && t < |shards| && value.Readable()
    requires Laid(store.records.rows, blocks) && Owned(lists[t]) <= blocks && Unused(store.records.rows, lists[t], cursors[t].used)
    modifies store.records, shards[t], shards[t].slices, Owned(shards[t].slices.nodes)
    ensures store.slices.Valid() && store.records.Valid()
    ensures Grown(grown, lists[t])
    ensures ShardsAre(shards, lists[t := grown], cursors[t := cursor])
    ensures cursor == if r.Ok? then cursors[t].Take(|store.records.rows|, value.Taken()) else cursors[t]
    ensures cursor.caps == Sizes(grown)
    ensures grown != lists[t] ==> fresh(grown[0]) && fresh(grown[0].data)
    ensures Separate(store.slices, store.slices.nodes, shards, lists[t := grown])
    ensures Laid(store.records.rows, blocks + Owned(grown)) && Unused(store.records.rows, grown, cursor.used)
    ensures r == Err(OutOfBounds) <==> i >= |old(store.records.rows)|
    ensures r == Err(TooLong) <==> i < |old(store.records.rows)| && value.Taken() > STRING_MAX
    ensures r.Err? ==> r.error in {OutOfBounds, TooLong} && store.records.rows == old(store.records.rows) && grown == lists[t]
    ensures r.Ok? ==> store.records.rows == old(store.records.rows)[i := RowAt(r.value, value.Taken(), value.Rec().Tag())]
    ensures r.Ok? && value.Taken() > 0 ==> grown != [] && r.value == In(grown[0].data, cursor.used - value.len)
    ensures RecsOf(store.records.rows) == if r.Ok? then old(RecsOf(store.records.rows))[i := value.Rec()] else old(RecsOf(store.records.rows))
  {
    r, grown, cursor := CopyShard(store, shards, t, i, value, lists, cursors, blocks);
    if grown != lists[t] {
      FreshIsNew(grown[0], store.slices.nodes);
      FreshIsNewToAll(grown[0], lists);
    }
    SeparateStep(store.slices, store.slices.nodes, shards, lists, t, grown);
  }

  /** Set, in terms of the builder's parts. */
  method SetThrough(store: Store, shards: seq<Shard>, t: nat, i: nat, value: Source, ghost lists: seq<seq<Slice>>, ghost state: State)
    returns (r: Result<Ptr, BuildError>, ghost grown: seq<Slice>)
    requires store.slices.Valid() && store.records.Valid() && ShardsAre(shards, lists, state.cursors)
    requires Separate(store.slices, store.slices.nodes, shards, lists) && t < |shards| && value.Readable()
    requires RowsAre(store.records.rows, store.slices.nodes, lists, state) && RecsOf(store.records.rows) == Recs(state)
    modifies store.records, shards[t], shards[t].slices, Owned(shards[t].slices.nodes)
    ensures store.slices.Valid() && store.records.Valid() && Grown(grown, lists[t])
    ensures grown != lists[t] ==> fresh(grown[0]) && fresh(grown[0].data)
    ensures ShardsAre(shards, lists[t := grown], Step(state, Call(t, i, value)).cursors)
    ensures Separate(store.slices, store.slices.nodes, shards, lists[t := grown])
    ensures RowsAre(store.records.rows, store.slices.nodes, lists[t := grown], Step(state, Call(t, i, value)))
    ensures RecsOf(store.records.rows) == Recs(Step(state, Call(t, i, value)))
    ensures r == Err(OutOfBounds) <==> i >= |state.places|
    ensures r == Err(TooLong) <==> i < |state.places| && value.Taken() > STRING_MAX
    ensures r.Ok? <==> Accepted(state, Call(t, i, value))
  {
    ghost var rows, nodes := store.records.rows, store.slices.nodes;
    FlattenOwns(lists, t);
    ghost var cursor;
    r, grown, cursor := CopyThrough(store, shards, t, i, value, lists, state.cursors, Owned(nodes) + Owned(Flatten(lists)));
    ghost var c := Call(t, i, value);
    SetStep(rows, nodes, lists, state, store.slices, shards, c, grown, r, store.records.rows, cursor);
  }

  lemma {:induction false} ApartJoin(a: seq<Slice>, b: seq<Slice>, c: seq<Slice>)
    requires Apart(a, c) && Apart(b, c)
    ensures Apart(a + b, c)
  {
  }

  /** What is still to be handed over, from shard t on. */
  ghost predicate Pending(store: Store, shards: seq<Shard>, lists: seq<seq<Slice>>, t: nat)
    reads store.slices, shards, set u | 0 <= u < |shards| :: shards[u].slices
    reads set u, k | 0 <= u < |shards| && 0 <= k < |shards[u].slices.nodes| :: shards[u].slices.nodes[k]
  {
    && |lists| == |shards|
    && (forall u :: t <= u < |shards| ==> shards[u].Valid() && shards[u].slices.nodes == lists[u])
    && (forall u :: t <= u < |shards| ==> Apart(store.slices.nodes, lists[u]))
    && (forall u :: 0 <= u < t && u < |shards| ==> shards[u].Valid() && shards[u].slices.nodes == [] && shards[u].Cursor() == FRESH)
  }

  /** Hands shard t's slices to the Store. */
  method FinishOne(store: Store, shards: seq<Shard>, t: nat, ghost chain: seq<Slice>, ghost lists: seq<seq<Slice>>, ghost rows: seq<Row>)
    requires t < |shards| && store.slices.Valid() && store.slices.nodes == chain && Pending(store, shards, lists, t)
    requires Separate(store.slices, [], shards, lists)
    modifies store.slices, shards[t], shards[t].slices, shards[t].slices.nodes
    ensures store.slices.Valid() && store.slices.nodes == lists[t] + chain && Pending(store, shards, lists, t + 1)
    ensures store.records.rows == old(store.records.rows) && store.records.capacity == old(store.records.capacity)
    ensures RecsOf(rows) == old(RecsOf(rows))
  {
    FinishShard(store, shards[t]);
    forall u | t < u < |shards|
      ensures shards[u].Valid() && shards[u].slices.nodes == lists[u] && Apart(store.slices.nodes, lists[u])
    {
      assert shards[u] != shards[t] && shards[u].slices != shards[t].slices && Apart(lists[t], lists[u]);
      ApartJoin(lists[t], chain, lists[u]);
    }
    forall u | 0 <= u < t
      ensures shards[u].Valid() && shards[u].slices.nodes == [] && shards[u].Cursor() == FRESH
    {
      assert shards[u] != shards[t] && shards[u].slices != shards[t].slices;
    }
  }

  lemma {:induction false} FlattenStep(lists: seq<seq<Slice>>, t: nat, chain: seq<Slice>)
    requires t < |lists|
    ensures lists[t] + (Flatten(lists[..t]) + chain) == Flatten(lists[..t + 1]) + chain
  {
    assert lists[..t + 1][..t] == lists[..t];
    assert lists[t] + (Flatten(lists[..t]) + chain) == (lists[t] + Flatten(lists[..t])) + chain;
  }

  ghost function Chains(shards: seq<Shard>): set<SliceChain> {
    set t | 0 <= t < |shards| :: shards[t].slices
  }

  lemma {:induction false} FlattenHas(lists: seq<seq<Slice>>, t: nat)
    requires t < |lists|
    ensures forall k :: 0 <= k < |lists[t]| ==> lists[t][k] in Flatten(lists)
  {
    var n := |lists| - 1;
    if t < n {
      FlattenHas(lists[..n], t);
    } else {
      forall k | 0 <= k < |lists[t]|
        ensures lists[t][k] in Flatten(lists)
      {
        assert Flatten(lists)[k] == lists[t][k];
      }
    }
  }

  lemma {:induction false} StartPending(store: Store, shards: seq<Shard>, lists: seq<seq<Slice>>, cursors: seq<Bump>)
    requires ShardsAre(shards, lists, cursors) && Separate(store.slices, store.slices.nodes, shards, lists)
    ensures Pending(store, shards, lists, 0) && Separate(store.slices, [], shards, lists)
  {
  }

  /** One more shard's slices are handed over. */
  method FinishNext(store: Store, shards: seq<Shard>, t: nat, ghost chain: seq<Slice>, ghost lists: seq<seq<Slice>>, ghost rows: seq<Row>)
    requires t < |shards| == |lists| && store.slices.Valid() && store.slices.nodes == Flatten(lists[..t]) + chain
    requires Pending(store, shards, lists, t) && Separate(store.slices, [], shards, lists)
    modifies store.slices, shards, Chains(shards), Flatten(lists)
    ensures store.slices.Valid() && store.slices.nodes == Flatten(lists[..t + 1]) + chain
    ensures Pending(store, shards, lists, t + 1) && store.records.rows == old(store.records.rows)
    ensures store.records.capacity == old(store.records.capacity) && RecsOf(rows) == old(RecsOf(rows))
  {
    FlattenStep(lists, t, chain);
    FlattenHas(lists, t);
    FinishOne(store, shards, t, Flatten(lists[..t]) + chain, lists, rows);
  }

  /** Hands every shard's slices to the Store, first shard first. */
  method FinishAll(store: Store, shards: seq<Shard>, ghost lists: seq<seq<Slice>>, ghost cursors: seq<Bump>, ghost rows: seq<Row>)
    requires store.slices.Valid() && store.records.Valid() && store.records.rows == rows && ShardsAre(shards, lists, cursors)
    requires Separate(store.slices, store.slices.nodes, shards, lists)
    modifies store.slices, shards, Chains(shards), Flatten(lists)
    ensures store.slices.Valid() && store.slices.nodes == Flatten(lists) + old(store.slices.nodes)
    ensures store.records.Valid() && store.records.rows == rows && RecsOf(rows) == old(RecsOf(rows))
    ensures forall t :: 0 <= t < |shards| ==> shards[t].Valid() && shards[t].slices.nodes == [] && shards[t].Cursor() == FRESH
  {
    ghost var chain, recs := store.slices.nodes, RecsOf(rows);
    StartPending(store, shards, lists, cursors);
    var t := 0;
    while t < |shards|
      invariant t <= |shards| && store.slices.Valid() && store.slices.nodes == Flatten(lists[..t]) + chain
      invariant store.records.Valid() && store.records.rows == rows && RecsOf(rows) == recs
      invariant Pending(store, shards, lists, t)
    {
      FinishNext(store, shards, t, chain, lists, rows);
      t := t + 1;
    }
    assert lists[..t] == lists;
  }

  class ParallelBuilder {
    const store: Store
    const shards: seq<Shard>

    /** The builder is sound, its shards have these slices, newest first, and it is,
        byte for byte, what the schedule's model says. */
    ghost predicate Is(lists: seq<seq<Slice>>, state: State)
      reads this, store, store.slices, store.slices.nodes, store.records, BlocksOf(store.records.rows)
      reads shards, set t | 0 <= t < |shards| :: shards[t].slices
      reads set t, k | 0 <= t < |shards| && 0 <= k < |shards[t].slices.nodes| :: shards[t].slices.nodes[k]
    {
      && store.slices.Valid() && store.records.Valid() && ShardsAre(shards, lists, state.cursors)
      && Separate(store.slices, store.slices.nodes, shards, lists)
      && RowsAre(store.records.rows, store.slices.nodes, lists, state)
      && Contents() == Recs(state)
    }

    ghost function Contents(): (recs: seq<Rec>)
      reads this, store, store.records, BlocksOf(store.records.rows)
    {
      store.Contents()
    }

    /** A builder of n NA records with k shards. */
    constructor (n: nat, k: nat)
      requires n <= MAX_CAPACITY && k > 0
      ensures Is(NoSlices(k), Unfilled(n, k))
      ensures Contents() == seq(n, _ => NA) && |shards| == k && store.slices.nodes == []
      ensures fresh(store) && fresh(store.slices) && fresh(store.records)
      ensures forall t :: 0 <= t < k ==> fresh(shards[t]) && fresh(shards[t].slices)
    {
      var empty := new Store(n, 0);
      var made := MakeShards(k);
      store, shards := empty, made;
      new;
      ghost var state := Unfilled(n, k);
      StartsEmpty(store.records.rows, n, NoSlices(k), state);
      StartsApart(store.slices, shards, k);
      forall t | 0 <= t < k
        ensures shards[t].Valid() && shards[t].slices.nodes == [] && shards[t].Cursor() == FRESH
      {
      }
      assert Contents() == seq(n, _ => NA) == Recs(state);
    }

    /** Stores a copy of a value as record i through one shard. It touches that
        shard and that record only, and moves the model by one call. */
    method Set(shard: nat, i: nat, value: Source, ghost lists: seq<seq<Slice>>, ghost state: State)
      returns (r: Result<Ptr, BuildError>, ghost grown: seq<Slice>)
      requires Is(lists, state) && value.Readable()
      modifies store.records
      modifies if shard < |shards| then {shards[shard], shards[shard].slices} else {}
      modifies if shard < |shards| then Owned(shards[shard].slices.nodes) else {}
      ensures shard < |shards| ==> Grown(grown, lists[shard]) && (grown != lists[shard] ==> fresh(grown[0]) && fresh(grown[0].data))
      ensures shard >= |shards| ==> Is(lists, state)
      ensures shard < |shards| ==> Is(lists[shard := grown], Step(state, Call(shard, i, value)))
      ensures r == Err(NoSuchShard) <==> shard >= |shards|
      ensures r == Err(OutOfBounds) <==> shard < |shards| && i >= |state.places|
      ensures r == Err(TooLong) <==> shard < |shards| && i < |state.places| && value.Taken() > STRING_MAX
      ensures r.Ok? <==> Accepted(state, Call(shard, i, value))
    {
      if shard >= |shards| {
        r, grown := Err(NoSuchShard), [];
      } else {
        r, grown := SetThrough(store, shards, shard, i, value, lists, state);
      }
    }

    /** Gives the finished Store away. It owns every shard's slices, the last shard's
        first whatever the schedule was, and holds the records of the model. */
    method ReleaseStore(ghost lists: seq<seq<Slice>>, ghost state: State) returns (out: Store)
      requires Is(lists, state)
      modifies store.slices, store.records, shards, Chains(shards), Flatten(lists)
      ensures out.Valid() && fresh(out) && fresh(out.slices) && fresh(out.records)
      ensures out.Contents() == Recs(state)
      ensures out.slices.nodes == Flatten(lists) + old(store.slices.nodes)
      ensures store.slices.nodes == [] && store.records.rows == []
      ensures forall t :: 0 <= t < |shards| ==> shards[t].Valid() && shards[t].slices.nodes == [] && shards[t].Cursor() == FRESH
    {
      OwnedJoin(Flatten(lists), store.slices.nodes);
      FinishAll(store, shards, lists, state.cursors, store.records.rows);
      out := new Store.Move(store);
    }
  }

  /** A parallel builder of n NA records with k shards, or why there can be none. */
  method MakeParallelBuilder(n: int, k: nat) returns (r: Result<ParallelBuilder, BuildError>)
    ensures r == Err(NoShards) <==> k == 0
    ensures r == Err(NegativeLength) <==> k > 0 && n < 0
    ensures r == Err(CapacityExceeded) <==> k > 0 && n > MAX_CAPACITY
    ensures r.Ok? <==> k > 0 && 0 <= n <= MAX_CAPACITY
    ensures r.Ok? ==> fresh(r.value) && |r.value.shards| == k && r.value.Contents() == seq(n, _ => NA)
    ensures r.Ok? ==> r.value.Is(NoSlices(k), Unfilled(n, k))
  {
    if k == 0 {
      return Err(NoShards);
    }
    if n < 0 {
      return Err(NegativeLength);
    }
    if n > MAX_CAPACITY {
      return Err(CapacityExceeded);
    }
    var b := new ParallelBuilder(n, k);
    r := Ok(b);
  }

  lemma {:induction false} FlattenNodes(lists: seq<seq<Slice>>, t: nat, grown: seq<Slice>)
    requires t < |lists| && Grown(grown, lists[t])
    ensures forall x :: x in Flatten(lists[t := grown]) ==> x in Flatten(lists) || (grown != lists[t] && x == grown[0])
  {
    var n := |lists| - 1;
    if t < n {
      FlattenNodes(lists[..n], t, grown);
      assert lists[t := grown][..n] == lists[..n][t := grown];
    } else {
      assert lists[t := grown][..n] == lists[..n];
      assert grown != lists[t] ==> grown == [grown[0]] + lists[t];
    }
  }

  /** What the builder changes, as it is filled and released. */
  ghost predicate Holds(own: set<object>, b: ParallelBuilder, lists: seq<seq<Slice>>) {
    && b.store.slices in own && b.store.records in own
    && (forall t :: 0 <= t < |b.shards| ==> b.shards[t] in own && b.shards[t].slices in own)
    && forall x :: x in Flatten(lists) ==> x in own && x.data in own
  }

  /** What it holds once a shard has opened a slice. */
  ghost function Widened(own: set<object>, was: seq<Slice>, grown: seq<Slice>): (more: set<object>)
    requires Grown(grown, was)
    ensures own <= more
  {
    if grown == was then own else own + {grown[0], grown[0].data}
  }

  lemma {:induction false} HoldsGrown(own: set<object>, b: ParallelBuilder, lists: seq<seq<Slice>>, t: nat, grown: seq<Slice>)
    requires Holds(own, b, lists) && t < |lists| && Grown(grown, lists[t])
    ensures Holds(Widened(own, lists[t], grown), b, lists[t := grown])
  {
    FlattenNodes(lists, t, grown);
  }

  /** One call of a schedule: it allocates at most one slice. */
  method RunCall(b: ParallelBuilder, c: Call, ghost lists: seq<seq<Slice>>, ghost state: State, ghost own: set<object>)
    returns (ghost after: seq<seq<Slice>>, ghost owned: set<object>)
    requires b.Is(lists, state) && c.value.Readable() && Holds(own, b, lists)
    modifies own
    ensures b.Is(after, Step(state, c)) && Holds(owned, b, after) && own <= owned && fresh(owned - own)
  {
    if c.shard < |b.shards| {
      FlattenHas(lists, c.shard);
    }
    ghost var grown;
    var r;
    r, grown := b.Set(c.shard, c.idx, c.value, lists, state);
    if c.shard < |b.shards| {
      after, owned := lists[c.shard := grown], Widened(own, lists[c.shard], grown);
      HoldsGrown(own, b, lists, c.shard, grown);
    } else {
      after, owned := lists, own;
    }
  }

  /** Runs the calls of a schedule, whatever it is: the heap ends, byte for byte, as
      the model of the run. What the builder then owns it owned before, or is new. */
  method RunSchedule(b: ParallelBuilder, calls: seq<Call>, ghost lists: seq<seq<Slice>>, ghost state: State, ghost own: set<object>)
    returns (ghost after: seq<seq<Slice>>, ghost owned: set<object>)
    requires b.Is(lists, state) && Holds(own, b, lists) && forall k :: 0 <= k < |calls| ==> calls[k].value.Readable()
    modifies own
    ensures b.Is(after, Run(state, calls)) && b.Contents() == Recs(Run(state, calls))
    ensures Holds(owned, b, after) && own <= owned && fresh(owned - own)
  {
    after, owned := lists, own;
    var k := 0;
    while k < |calls|
      invariant k <= |calls| && b.Is(after, Run(state, calls[..k]))
      invariant Holds(owned, b, after) && own <= owned && fresh(owned - own)
    {
      assert calls[..k + 1][..k] == calls[..k];
      after, owned := RunCall(b, calls[k], after, Run(state, calls[..k]), owned);
      k := k + 1;
    }
    assert calls[..k] == calls;
  }
}
