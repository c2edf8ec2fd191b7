/** Runs over any number of charvecs on the heap. */
module CharvecRuns {
  import opened Records
  import opened PackSubset
  import opened Stores
  import opened EltCache
  import opened Charvecs

  /** Every vector is sound, and no two own a thing in common. */
  ghost predicate Sound(vs: seq<Charvec>, own: set<object>)
    reads own
  {
    && (forall v :: 0 <= v < |vs| ==> Holds(own, vs[v]) && vs[v].Valid())
    && (forall u, v :: 0 <= u < v < |vs| ==> vs[u].Footprint() !! vs[v].Footprint())
  }

  /** The vector and all it owns are among these. */
  ghost predicate Holds(own: set<object>, x: Charvec)
    reads own
  {
    x in own && (x.store != null ==> x.store in own && x.store.slices in own && x.store.records in own) && x.Footprint() <= own
  }

  ghost function Models(vs: seq<Charvec>, own: set<object>): (w: seq<Vec>)
    requires Sound(vs, own)
    reads own
    ensures |w| == |vs|
  {
    seq(|vs|, v requires 0 <= v < |vs| && Sound(vs, own) reads own => vs[v].Model())
  }

  method WriteAt(x: Charvec, i: nat, o: Obj)
    requires x.Valid() && i < x.Model().Length() && o.value.Proper()
    modifies x.Footprint()
    ensures x.Valid() && fresh(x.Footprint() - old(x.Footprint())) && x.Model() == SetElt(old(x.Model()), i, o)
  {
    x.StringSetElt(i, o);
  }

  method DirectAt(x: Charvec, i: nat, value: View)
    requires x.Valid() && i < x.Model().Length() && value.Readable()
    modifies x.Footprint()
    ensures x.Valid() && fresh(x.Footprint() - old(x.Footprint())) && x.Model() == Pour(old(x.Model()), i, value.Stored())
  {
    var ok := x.WriteDirect(i, value);
  }

  method ApplyRead(x: Charvec, op: Op) returns (given: Option<Obj>)
    requires x.Valid() && op.Ok() && op.Read?
    modifies x.Footprint()
    ensures x.Valid() && fresh(x.Footprint() - old(x.Footprint()))
    ensures x.Model() == Change(old(x.Model()), op) && given == GivenBy(old(x.Model()), op)
  {
    given := None;
    if op.i < x.Length() {
      var elt := x.StringElt(op.i, op.id);
      given := Some(elt);
    }
  }

  method ApplyWrite(x: Charvec, op: Op) returns (given: Option<Obj>)
    requires x.Valid() && op.Ok() && op.Write?
    modifies x.Footprint()
    ensures x.Valid() && fresh(x.Footprint() - old(x.Footprint()))
    ensures x.Model() == Change(old(x.Model()), op) && given == GivenBy(old(x.Model()), op)
  {
    given := None;
    if op.i < x.Length() {
      WriteAt(x, op.i, op.x);
    }
  }

  method ApplyDirect(x: Charvec, op: Op) returns (given: Option<Obj>)
    requires x.Valid() && op.Ok() && op.Direct?
    modifies x.Footprint()
    ensures x.Valid() && fresh(x.Footprint() - old(x.Footprint()))
    ensures x.Model() == Change(old(x.Model()), op) && given == GivenBy(old(x.Model()), op)
  {
    given := None;
    if op.i < x.Length() {
      DirectAt(x, op.i, op.value);
    }
  }

  method ApplyExpand(x: Charvec, op: Op) returns (given: Option<Obj>)
    requires x.Valid() && op.Ok() && op.Expand?
    modifies x.Footprint()
    ensures x.Valid() && fresh(x.Footprint() - old(x.Footprint()))
    ensures x.Model() == Change(old(x.Model()), op) && given == GivenBy(old(x.Model()), op)
  {
    given := None;
    var strings := x.Materialize(op.ids);
  }

  method ApplyCompact(x: Charvec, op: Op) returns (given: Option<Obj>)
    requires x.Valid() && op.Ok() && op.Compact?
    modifies x.Footprint()
    ensures x.Valid() && fresh(x.Footprint() - old(x.Footprint()))
    ensures x.Model() == Change(old(x.Model()), op) && given == GivenBy(old(x.Model()), op)
  {
    given := None;
    var ok := x.CompactStore();
  }

  ghost function Footprints(vs: seq<Charvec>, own: set<object>): (fps: seq<set<object>>)
    requires Sound(vs, own)
    reads own
    ensures |fps| == |vs|
  {
    seq(|vs|, v requires 0 <= v < |vs| && Sound(vs, own) reads own => vs[v].Footprint())
  }

  /** An operation that makes no vector does to the object what it does to its model. */
  method Apply(x: Charvec, op: Op) returns (given: Option<Obj>)
    requires x.Valid() && op.Ok() && !op.Makes()
    modifies x.Footprint()
    ensures x.Valid() && fresh(x.Footprint() - old(x.Footprint()))
    ensures x.Model() == Change(old(x.Model()), op) && given == GivenBy(old(x.Model()), op)
  {
    match op
    case Read(_, _, _) => given := ApplyRead(x, op);
    case Write(_, _, _) => given := ApplyWrite(x, op);
    case Direct(_, _, _) => given := ApplyDirect(x, op);
    case Expand(_, _) => given := ApplyExpand(x, op);
    case Compact(_) => given := ApplyCompact(x, op);
  }

  /** A copy shares nothing with its source. */
  method ApplyCopy(x: Charvec) returns (copy: Charvec)
    requires x.Valid()
    ensures copy.Valid() && fresh(copy.Footprint()) && copy.Model() == EltCache.Duplicate(old(x.Model()))
  {
    var made, plain := x.Duplicate();
    if made != null {
      copy := made;
    } else {
      copy := new Charvec.Ordinary(plain);
    }
  }

  /** R's own subsetting of strings. */
  method SelectPlain(strings: array<Obj>, sub: Subscripts) returns (out: array<Obj>)
    ensures fresh(out) && out[..] == SelectObjs(strings[..], sub)
  {
    out := new Obj[sub.Size()](j requires 0 <= j < sub.Size() reads strings =>
      var i := sub.Selected(j, strings.Length); if i == strings.Length then NA_OBJ else strings[i]);
  }

  /** A subset shares nothing with its source. */
  method ApplySelect(x: Charvec, sub: Subscripts) returns (out: Charvec)
    requires x.Valid() && sub.Size() <= MAX_CAPACITY
    ensures out.Valid() && fresh(out.Footprint()) && out.Model() == SelectFrom(old(x.Model()), sub)
  {
    if x.data2 != null {
      var strings := SelectPlain(x.data2, sub);
      out := new Charvec.Ordinary(strings);
    } else {
      out := x.ExtractSubset(sub);
    }
  }

  method ApplyMake(x: Charvec, op: Op) returns (made: Charvec)
    requires x.Valid() && op.Ok() && op.Makes()
    ensures made.Valid() && fresh(made.Footprint()) && made.Model() == Made(old(x.Model()), op)
  {
    match op
    case Copy(_) => made := ApplyCopy(x);
    case Select(_, sub) => made := ApplySelect(x, sub);
  }

  /** A vector beside one that changed is as it was, and still shares nothing with it. */
  twostate lemma Bystander(new x: Charvec, new y: Charvec, new fp: set<object>, new own: set<object>, new owned: set<object>)
    requires old(allocated(x)) && old(allocated(y)) && old(allocated(fp)) && old(allocated(own))
    requires fp == old(y.Footprint()) && unchanged(fp) && old(y.Valid()) && old(Holds(own, y)) && own <= owned
    requires fp !! old(x.Footprint()) && fresh(x.Footprint() - old(x.Footprint()))
    ensures y.Footprint() == fp && y.Valid() && y.Model() == old(y.Model()) && Holds(owned, y)
    ensures fp !! x.Footprint()
  {
    Undisturbed(y, fp);
  }

  /** One vector changed, and grew by new things only: the others are as they were,
      and all still share nothing. */
  twostate lemma OneChanged(new vs: seq<Charvec>, v: nat, new own: set<object>, new owned: set<object>, new fps: seq<set<object>>)
    requires old(allocated(vs)) && old(allocated(own)) && old(allocated(fps))
    requires v < |vs| && old(Sound(vs, own)) && fps == old(Footprints(vs, own))
    requires forall u :: 0 <= u < |vs| && u != v ==> unchanged(fps[u])
    requires vs[v].Valid() && fresh(vs[v].Footprint() - fps[v]) && owned == own + vs[v].Footprint()
    ensures Sound(vs, owned) && Models(vs, owned) == old(Models(vs, own))[v := vs[v].Model()]
  {
    forall u | 0 <= u < |vs| && u != v
      ensures vs[u].Footprint() == fps[u] && vs[u].Valid() && Holds(owned, vs[u]) && fps[u] !! vs[v].Footprint()
      ensures vs[u].Model() == old(vs[u].Model())
    {
      Bystander(vs[v], vs[u], fps[u], own, owned);
    }
  }

  /** Changing one vector leaves the others sound and as they were. */
  method StepChange(vs: seq<Charvec>, op: Op, ghost own: set<object>) returns (given: Option<Obj>, ghost owned: set<object>)
    requires Sound(vs, own) && op.Ok() && !op.Makes() && op.v < |vs|
    modifies own
    ensures Sound(vs, owned) && own <= owned && fresh(owned - own)
    ensures Models(vs, owned) == old(Models(vs, own))[op.v := Change(old(vs[op.v].Model()), op)]
    ensures given == GivenBy(old(vs[op.v].Model()), op)
  {
    ghost var fps := Footprints(vs, own);
    assert Holds(own, vs[op.v]);
    given := Apply(vs[op.v], op);
    owned := own + vs[op.v].Footprint();
    OneChanged(vs, op.v, own, owned, fps);
  }

  /** A new vector beside the others. */
  lemma {:induction false} AddSound(vs: seq<Charvec>, x: Charvec, own: set<object>, more: set<object>)
    requires Sound(vs, own) && x.Valid() && x.Footprint() !! own && more == own + x.Footprint()
    ensures Sound(vs + [x], more) && Models(vs + [x], more) == Models(vs, own) + [x.Model()]
  {
    forall v | 0 <= v < |vs|
      ensures Holds(more, vs[v]) && vs[v].Footprint() !! x.Footprint()
    {
      assert Holds(own, vs[v]);
    }
  }

  /** A vector made from one of them stands beside them all. */
  method StepMake(vs: seq<Charvec>, op: Op, ghost own: set<object>) returns (made: Charvec, ghost owned: set<object>)
    requires Sound(vs, own) && op.Ok() && op.Makes() && op.v < |vs|
    ensures Sound(vs + [made], owned) && own <= owned && fresh(owned - own)
    ensures Models(vs + [made], owned) == old(Models(vs, own)) + [Made(old(vs[op.v].Model()), op)]
  {
    ghost var was, fps := Models(vs, own), Footprints(vs, own);
    made := ApplyMake(vs[op.v], op);
    forall u | 0 <= u < |vs|
      ensures vs[u].Footprint() == fps[u] && vs[u].Valid() && vs[u].Model() == was[u] && Holds(own, vs[u])
    {
      Undisturbed(vs[u], fps[u]);
    }
    owned := own + made.Footprint();
    AddSound(vs, made, own, owned);
  }

  /** One operation moves the heap by one step of the model. */
  method Step(vs: seq<Charvec>, op: Op, ghost own: set<object>)
    returns (ws: seq<Charvec>, given: Option<Obj>, ghost owned: set<object>)
    requires Sound(vs, own) && AllOk(Models(vs, own)) && op.Ok()
    modifies own
    ensures vs <= ws && Sound(ws, owned) && own <= owned && fresh(owned - own)
    ensures Models(ws, owned) == EltCache.Step(old(Models(vs, own)), op)
    ensures given == Given(old(Models(vs, own)), op)
  {
    ws, given, owned := vs, None, own;
    if op.v >= |vs| {
      return;
    }
    if op.Makes() {
      var made;
      made, owned := StepMake(vs, op, own);
      ws := vs + [made];
    } else {
      given, owned := StepChange(vs, op, own);
    }
  }

  /** After any run of reads, writes, direct writes, materializations, compactions,
      copies and subsets, the heap is the model's run of them and every read handed
      out the model's object. The vectors still share nothing, and nothing beside
      what they own was touched. */
  method RunOps(vs: seq<Charvec>, ops: seq<Op>, ghost own: set<object>)
    returns (ws: seq<Charvec>, given: seq<Option<Obj>>, ghost owned: set<object>)
    requires Sound(vs, own) && AllOk(Models(vs, own)) && OpsOk(ops)
    modifies own
    ensures vs <= ws && Sound(ws, owned) && own <= owned && fresh(owned - own)
    ensures Models(ws, owned) == Run(old(Models(vs, own)), ops)
    ensures given == RunGiven(old(Models(vs, own)), ops)
    decreases |ops|
  {
    if ops == [] {
      return vs, [], own;
    }
    ghost var was := Models(vs, own);
    StepRefines(was, ops[0]);
    var first, rest;
    ws, first, owned := Step(vs, ops[0], own);
    ws, rest, owned := RunOps(ws, ops[1..], owned);
    given := [first] + rest;
  }

  /** So what R reads after any run is what plain vectors given the same writes hold. */
  method RunSeen(vs: seq<Charvec>, ops: seq<Op>, other: Charvec, ghost own: set<object>)
    returns (ws: seq<Charvec>, given: seq<Option<Obj>>, ghost owned: set<object>)
    requires Sound(vs, own) && AllOk(Models(vs, own)) && OpsOk(ops)
    requires other.Valid() && other.Footprint() !! own
    modifies own
    ensures Sound(ws, owned) && SeenAll(Models(ws, owned)) == PlainRun(SeenAll(old(Models(vs, own))), ops)
    ensures other.Valid() && other.Model() == old(other.Model())
  {
    RunRefines(Models(vs, own), ops);
    ghost var fp := other.Footprint();
    ws, given, owned := RunOps(vs, ops, own);
    Undisturbed(other, fp);
  }
}
