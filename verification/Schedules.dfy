/** Parallel fills as interleavings: what a schedule can and cannot change. */
module Schedules {
  import opened Records
  import opened Allocator
  import opened Builders

  /** Where a record is: nowhere, if it has no bytes, or at an offset in a shard's
      slice. A shard's slices are numbered in the order it opens them. */
  datatype Place = Nowhere(rec: Rec) | Placed(shard: nat, slice: nat, off: nat, rec: Rec)

  /** The records and the shards' cursors. */
  datatype State = State(places: seq<Place>, cursors: seq<Bump>)

  /** n NA records and no byte given out. */
  function Unfilled(n: nat, shards: nat): State {
    State(seq(n, _ => Nowhere(NA)), seq(shards, _ => FRESH))
  }

  /** One call of set: a worker writes one record through one shard. */
  datatype Call = Call(shard: nat, idx: nat, value: Source)

  /** Whether the call succeeds. */
  predicate Accepted(s: State, c: Call) {
    c.shard < |s.cursors| && c.idx < |s.places| && c.value.Taken() <= STRING_MAX
  }

  function PlaceAt(shard: nat, b: Bump, value: Source): Place {
    if value.Taken() == 0 || |b.caps| == 0 || b.used < value.Taken() then Nowhere(value.Rec())
    else Placed(shard, |b.caps| - 1, b.used - value.Taken(), value.Rec())
  }

  function Step(s: State, c: Call): State {
    if !Accepted(s, c) then s
    else
      var b := s.cursors[c.shard].Take(|s.places|, c.value.Taken());
      State(s.places[c.idx := PlaceAt(c.shard, b, c.value)], s.cursors[c.shard := b])
  }

  function Run(s: State, calls: seq<Call>): State {
    if calls == [] then s else Step(Run(s, calls[..|calls| - 1]), calls[|calls| - 1])
  }

  /** The calls of one shard, in order. */
  function Project(calls: seq<Call>, shard: nat): seq<Call> {
    if calls == [] then []
    else
      var front := Project(calls[..|calls| - 1], shard);
      if calls[|calls| - 1].shard == shard then front + [calls[|calls| - 1]] else front
  }

  /** Each index is written through one shard only. */
  ghost predicate OneOwner(calls: seq<Call>, owner: seq<nat>) {
    forall k :: 0 <= k < |calls| && calls[k].idx < |owner| ==> calls[k].shard == owner[calls[k].idx]
  }

  lemma {:induction false} RunSizes(s: State, calls: seq<Call>)
    ensures |Run(s, calls).places| == |s.places| && |Run(s, calls).cursors| == |s.cursors|
  {
    if calls != [] {
      RunSizes(s, calls[..|calls| - 1]);
    }
  }

  lemma {:induction false} RunSnoc(s: State, calls: seq<Call>, c: Call)
    ensures Run(s, calls + [c]) == Step(Run(s, calls), c)
  {
    assert (calls + [c])[..|calls|] == calls;
  }

  /** A call touches its own shard and its own record, nothing else. */
  lemma {:induction false} StepTouches(s: State, c: Call, shard: nat, i: nat)
    requires shard < |s.cursors| && i < |s.places|
    ensures |Step(s, c).places| == |s.places| && |Step(s, c).cursors| == |s.cursors|
    ensures shard != c.shard ==> Step(s, c).cursors[shard] == s.cursors[shard]
    ensures i != c.idx ==> Step(s, c).places[i] == s.places[i]
  {
  }

  /** The two states agree on what a shard owns: its cursor and its records. */
  ghost predicate AgreeOn(s: State, t: State, shard: nat, owner: seq<nat>) {
    && |s.places| == |t.places| == |owner| && |s.cursors| == |t.cursors|
    && (shard < |s.cursors| ==> s.cursors[shard] == t.cursors[shard])
    && (forall i :: 0 <= i < |owner| && owner[i] == shard ==> s.places[i] == t.places[i])
  }

  lemma {:induction false} StepAgrees(s: State, t: State, c: Call, owner: seq<nat>)
    requires AgreeOn(s, t, c.shard, owner)
    ensures AgreeOn(Step(s, c), Step(t, c), c.shard, owner)
  {
  }

  lemma {:induction false} StepElsewhere(s: State, t: State, c: Call, shard: nat, owner: seq<nat>)
    requires AgreeOn(s, t, shard, owner) && c.shard != shard && OneOwner([c], owner)
    ensures AgreeOn(Step(s, c), t, shard, owner)
  {
    assert [c][0] == c;
  }

  /** What a shard owns after a run is what it would be had only its own calls run. */
  lemma {:induction false} RunIsLocal(s: State, calls: seq<Call>, shard: nat, owner: seq<nat>)
    requires OneOwner(calls, owner) && |owner| == |s.places|
    ensures AgreeOn(Run(s, calls), Run(s, Project(calls, shard)), shard, owner)
  {
    if calls != [] {
      var front, c := calls[..|calls| - 1], calls[|calls| - 1];
      RunIsLocal(s, front, shard, owner);
      if c.shard == shard {
        RunSnoc(s, Project(front, shard), c);
        StepAgrees(Run(s, front), Run(s, Project(front, shard)), c, owner);
      } else {
        assert OneOwner([c], owner);
        StepElsewhere(Run(s, front), Run(s, Project(front, shard)), c, shard, owner);
      }
    }
  }

  /** Schedule independence: if each index belongs to one shard, any two
      interleavings of the same workers end in the same state, down to where
      every byte is. */
  lemma {:induction false} SchedulesAgree(s: State, one: seq<Call>, two: seq<Call>, owner: seq<nat>)
    requires OneOwner(one, owner) && OneOwner(two, owner) && |owner| == |s.places|
    requires forall shard {:trigger Project(one, shard)} :: Project(one, shard) == Project(two, shard)
    ensures Run(s, one) == Run(s, two)
  {
    var a, b := Run(s, one), Run(s, two);
    RunSizes(s, one);
    RunSizes(s, two);
    forall i | 0 <= i < |owner|
      ensures a.places[i] == b.places[i]
    {
      RunIsLocal(s, one, owner[i], owner);
      RunIsLocal(s, two, owner[i], owner);
    }
    forall shard: nat | shard < |s.cursors|
      ensures a.cursors[shard] == b.cursors[shard]
    {
      RunIsLocal(s, one, shard, owner);
      RunIsLocal(s, two, shard, owner);
    }
    assert a.places == b.places && a.cursors == b.cursors;
  }

  function Recs(s: State): (recs: seq<Rec>)
    ensures |recs| == |s.places|
  {
    seq(|s.places|, i requires 0 <= i < |s.places| => s.places[i].rec)
  }

  lemma {:induction false} StepRecs(s: State, c: Call)
    ensures Recs(Step(s, c)) == if Accepted(s, c) then Recs(s)[c.idx := c.value.Rec()] else Recs(s)
  {
  }

  /** What a serial builder holds after the same calls, by whatever shard. */
  function Serial(recs: seq<Rec>, calls: seq<Call>): seq<Rec> {
    if calls == [] then recs
    else
      var front, c := Serial(recs, calls[..|calls| - 1]), calls[|calls| - 1];
      if c.idx < |front| && c.value.Taken() <= STRING_MAX then front[c.idx := c.value.Rec()] else front
  }

  /** Every schedule of the same workers gives the records that a serial builder
      gives for the calls in any of those schedules. */
  lemma {:induction false} SameAsSerial(s: State, calls: seq<Call>)
    requires forall k :: 0 <= k < |calls| ==> calls[k].shard < |s.cursors|
    ensures Recs(Run(s, calls)) == Serial(Recs(s), calls)
  {
    if calls != [] {
      var front, c := calls[..|calls| - 1], calls[|calls| - 1];
      SameAsSerial(s, front);
      RunSizes(s, front);
      StepRecs(Run(s, front), c);
    }
  }

  lemma {:induction false} SchedulesAgreeWithSerial(s: State, one: seq<Call>, two: seq<Call>, owner: seq<nat>)
    requires OneOwner(one, owner) && OneOwner(two, owner) && |owner| == |s.places|
    requires forall shard {:trigger Project(one, shard)} :: Project(one, shard) == Project(two, shard)
    requires forall k :: 0 <= k < |two| ==> two[k].shard < |s.cursors|
    ensures Recs(Run(s, one)) == Serial(Recs(s), two)
  {
    SchedulesAgree(s, one, two, owner);
    SameAsSerial(s, two);
  }
}
