/** What holds of every object R is given, and of every record made of R's strings,
    over any run. */
module CacheLaws {
  import opened Records
  import opened RStrings
  import opened PackSubset
  import opened EltCache

  // Genuine objects.

  /** R's NA is one object, told by its identity, and so is its blank string. */
  ghost predicate Genuine(o: Obj) {
    (o.value == NaString <==> o.id == NA_OBJ.id) && (o.value == Chars([], Unmarked) <==> o.id == BLANK.id)
  }

  /** Every object the vector holds, in a chunk or once materialized, is genuine. */
  ghost predicate AllGenuine(v: Vec) {
    v.Shaped() && forall i :: 0 <= i < v.Length() ==> Genuine(v.Held(i))
  }

  ghost predicate GenuineOp(op: Op) {
    op.Write? ==> Genuine(op.x)
  }

  lemma {:induction false} MintGenuine(r: Rec, id: nat)
    ensures Genuine(Mint(r, id))
  {
  }

  /** Every slot of every chunk, then, holds a genuine object. */
  lemma {:induction false} SlotsGenuine(v: Vec, c: nat, j: nat)
    requires AllGenuine(v) && v.data2.None? && v.Allocated(c) && j < |v.chunks.value[c].value|
    ensures Genuine(v.chunks.value[c].value[j])
  {
    ElementOfSlot(|v.recs|, c, j);
    assert Genuine(v.Held(c * CHUNK + j));
  }

  lemma {:induction false} EltGenuine(v: Vec, i: nat, id: nat)
    requires v.Ok() && AllGenuine(v) && i < v.Length()
    ensures AllGenuine(Elt(v, i, id).0) && Genuine(Elt(v, i, id).1)
  {
    EltOk(v, i, id);
    if v.data2.None? {
      SlotOf(|v.recs|, i);
      TouchHeld(v, i / CHUNK, i);
      MintGenuine(v.recs[i], id);
    }
  }

  lemma {:induction false} SetEltGenuine(v: Vec, i: nat, x: Obj)
    requires v.Ok() && AllGenuine(v) && i < v.Length() && Genuine(x) && x.value.Proper()
    ensures AllGenuine(SetElt(v, i, x))
  {
    SetEltOk(v, i, x);
    if v.data2.None? {
      SetEltHeld(v, i, x, i);
      assert Genuine(v.Held(i));
    }
  }

  lemma {:induction false} MaterializeGenuine(v: Vec, ids: nat -> nat)
    requires v.Ok() && AllGenuine(v)
    ensures AllGenuine(Materialize(v, ids))
  {
    MaterializeOk(v, ids);
    var t := Materialize(v, ids);
    forall i | 0 <= i < v.Length()
      ensures Genuine(t.Held(i))
    {
      assert Genuine(v.Held(i));
      if v.data2.None? {
        MintGenuine(v.recs[i], ids(i));
      }
    }
  }

  lemma {:induction false} ChangeGenuine(v: Vec, op: Op)
    requires v.Ok() && AllGenuine(v) && op.Ok() && GenuineOp(op) && !op.Makes()
    ensures AllGenuine(Change(v, op))
    ensures GivenBy(v, op).Some? ==> Genuine(GivenBy(v, op).value)
  {
    match op
    case Read(_, i, id) => if i < v.Length() { EltGenuine(v, i, id); }
    case Write(_, i, x) => if i < v.Length() { SetEltGenuine(v, i, x); }
    case Direct(_, i, value) => if i < v.Length() { PourOk(v, i, value.Stored()); }
    case Expand(_, ids) => MaterializeGenuine(v, ids);
    case Compact(_) =>
  }

  /** A subset of strings is of the objects themselves, and R's NA where it selects none. */
  lemma {:induction false} SelectedObject(v: Vec, ints: seq<int>, j: nat)
    requires v.Shaped() && v.data2.Some? && j < |ints|
    ensures var t := SelectFrom(v, Ints(ints));
            t.data2.Some? && j < |t.data2.value|
            && t.data2.value[j] == if 1 <= ints[j] <= |v.data2.value| then v.data2.value[ints[j] - 1] else NA_OBJ
  {
  }

  lemma {:induction false} MadeGenuine(v: Vec, op: Op)
    requires v.Ok() && AllGenuine(v) && op.Makes()
    ensures AllGenuine(Made(v, op))
  {
    if op.Select? && v.data2.Some? {
      var t := SelectFrom(v, op.sub);
      forall j | 0 <= j < op.sub.Size()
        ensures Genuine(t.Held(j))
      {
        var i := op.sub.Selected(j, |v.data2.value|);
        assert i < |v.data2.value| ==> Genuine(v.Held(i));
      }
    }
  }

  ghost predicate WorldGenuine(w: seq<Vec>) {
    forall v :: 0 <= v < |w| ==> AllGenuine(w[v])
  }

  ghost predicate OpsGenuine(ops: seq<Op>) {
    forall k :: 0 <= k < |ops| ==> GenuineOp(ops[k])
  }

  lemma {:induction false} StepGenuine(w: seq<Vec>, op: Op)
    requires AllOk(w) && WorldGenuine(w) && op.Ok() && GenuineOp(op)
    ensures WorldGenuine(Step(w, op)) && (Given(w, op).Some? ==> Genuine(Given(w, op).value))
  {
    if op.v < |w| {
      if op.Makes() {
        MadeGenuine(w[op.v], op);
      } else {
        ChangeGenuine(w[op.v], op);
      }
    }
  }

  /** Over any run in which only genuine objects are written, every object held or
      handed out is genuine. */
  lemma {:induction false} RunGenuine(w: seq<Vec>, ops: seq<Op>)
    requires AllOk(w) && WorldGenuine(w) && OpsOk(ops) && OpsGenuine(ops)
    ensures WorldGenuine(Run(w, ops))
    ensures forall k :: 0 <= k < |ops| && RunGiven(w, ops)[k].Some? ==> Genuine(RunGiven(w, ops)[k].value)
    decreases |ops|
  {
    if ops != [] {
      StepRefines(w, ops[0]);
      StepGenuine(w, ops[0]);
      RunGenuine(Step(w, ops[0]), ops[1..]);
    }
  }

  /** So any two reads of NA in a run, of whichever vectors, give one object. */
  lemma {:induction false} OneNa(w: seq<Vec>, ops: seq<Op>, k: nat, m: nat)
    requires AllOk(w) && WorldGenuine(w) && OpsOk(ops) && OpsGenuine(ops) && k < |ops| && m < |ops|
    ensures var given := RunGiven(w, ops);
            given[k].Some? && given[m].Some? && given[k].value.value == NaString == given[m].value.value ==>
              given[k] == given[m] == Some(NA_OBJ)
  {
    RunGenuine(w, ops);
  }

  // Honest records.

  /** Every record is valid, and none is tagged ASCII with other bytes. */
  ghost predicate Honest(recs: seq<Rec>) {
    forall i :: 0 <= i < |recs| ==> recs[i].Valid() && !Mislabelled(recs[i])
  }

  /** Direct writes store what tag a caller gives; every other operation stores R's strings. */
  ghost predicate HonestOp(op: Op) {
    op.Direct? ==> op.value.Stored().Valid() && !Mislabelled(op.value.Stored())
  }

  lemma {:induction false} ChangeHonest(v: Vec, op: Op)
    requires v.Ok() && Honest(v.recs) && op.Ok() && HonestOp(op) && !op.Makes()
    ensures Honest(Change(v, op).recs)
  {
    if op.Write? {
      StringTag(op.x.value);
    }
  }

  lemma {:induction false} MadeHonest(v: Vec, op: Op)
    requires v.Ok() && Honest(v.recs) && op.Makes()
    ensures Honest(Made(v, op).recs)
  {
    if op.Select? && v.data2.None? {
      var out := Subset(v.recs, op.sub);
      forall j | 0 <= j < |out|
        ensures out[j].Valid() && !Mislabelled(out[j])
      {
        var i := op.sub.Selected(j, |v.recs|);
        assert i < |v.recs| ==> v.recs[i].Valid() && !Mislabelled(v.recs[i]);
      }
    }
  }

  ghost predicate WorldHonest(w: seq<Vec>) {
    forall v :: 0 <= v < |w| ==> Honest(w[v].recs)
  }

  ghost predicate OpsHonest(ops: seq<Op>) {
    forall k :: 0 <= k < |ops| ==> HonestOp(ops[k])
  }

  /** Over any run of reads, string writes, materializations, compactions, copies
      and subsets no vector comes to hold a mislabelled record. */
  lemma {:induction false} RunHonest(w: seq<Vec>, ops: seq<Op>)
    requires AllOk(w) && WorldHonest(w) && OpsOk(ops) && OpsHonest(ops)
    ensures WorldHonest(Run(w, ops))
    decreases |ops|
  {
    if ops != [] {
      var op := ops[0];
      StepRefines(w, op);
      if op.v < |w| {
        if op.Makes() {
          MadeHonest(w[op.v], op);
        } else {
          ChangeHonest(w[op.v], op);
        }
      }
      RunHonest(Step(w, op), ops[1..]);
    }
  }
}
