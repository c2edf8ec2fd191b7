/** Runs over any number of charpacks on the heap. They share buffers, and yet
    behave like plain vectors that share nothing. */
module PackRuns {
  import opened Records
  import opened RStrings
  import opened Words
  import opened PackLayout
  import opened PackRecords
  import opened PackFill
  import opened PackSubset
  import opened Charpack

  /** A call on the vectors made so far. An ordinary character vector takes part
      as a materialized charpack does. */
  datatype Call =
    | Placeholder
    | FillByViews(v: nat, views: ViewCall)
    | FillBySlices(v: nat, slices: SliceCall)
    | FillNa(v: nat, n: int)
    | Expand(v: nat)
    | Read(v: nat, i: nat)
    | Set(v: nat, i: nat, x: RString)
    | Duplicate(v: nat)
    | Select(v: nat, sub: Subscripts)
  {
    /** What C callers and R promise. */
    ghost predicate Callable() {
      && (FillByViews? ==> views.Callable())
      && (FillBySlices? ==> slices.Callable())
      && (Select? ==> sub.Size() <= XLEN_MAX)
    }

    /** The call may change vector u. */
    predicate Names(u: nat) {
      !Placeholder? && !Duplicate? && !Select? && v == u
    }
  }

  // Plain vectors: each has a phase and strings of its own.

  datatype PlainVec = PlainVec(phase: Phase, xs: seq<RString>)

  /** The bytes of the first k strings. */
  function Bytes(xs: seq<RString>, k: nat): nat
    requires k <= |xs|
  {
    if k == 0 then 0 else Bytes(xs, k - 1) + if xs[k - 1].NaString? then 0 else |xs[k - 1].bytes|
  }

  /** A buffer can hold the strings. */
  predicate Packs(xs: seq<RString>) {
    Fits(|xs|, Bytes(xs, |xs|), false)
  }

  ghost function PlainStep(w: seq<PlainVec>, call: Call): seq<PlainVec>
    requires call.Callable()
  {
    if call.Placeholder? then w + [PlainVec(Unfilled, [])]
    else if call.v >= |w| then w
    else
      var PlainVec(phase, xs) := w[call.v];
      match call
      case FillByViews(v, c) => if phase.Unfilled? && c.Accepted() then w[v := PlainVec(Filled, Elements(c.Recs()))] else w
      case FillBySlices(v, c) => if phase.Unfilled? && c.Accepted() then w[v := PlainVec(Filled, Elements(c.Recs()))] else w
      case FillNa(v, n) => if phase.Unfilled? && n >= 0 then w[v := PlainVec(Materialized, seq(n, _ => NaString))] else w
      case Expand(v) => w[v := PlainVec(Materialized, xs)]
      case Read(v, i) => if i < |xs| then w[v := PlainVec(Materialized, xs)] else w
      case Set(v, i, x) => if i < |xs| then w[v := PlainVec(Materialized, xs[i := x])] else w
      case Duplicate(v) => w + [PlainVec(if phase.Filled? then Filled else Materialized, xs)]
      case Select(v, sub) =>
        var out := SelectStrings(xs, sub);
        if !phase.Filled? then w + [PlainVec(Materialized, out)]
        else if Packs(out) then w + [PlainVec(Filled, out)]
        else w
  }

  /** What a read shows. */
  function PlainShown(w: seq<PlainVec>, call: Call): Option<RString> {
    if call.Read? && call.v < |w| && call.i < |w[call.v].xs| then Some(w[call.v].xs[call.i]) else None
  }

  /** The call gives some vector a buffer. */
  ghost predicate GivesBuffer(w: seq<PlainVec>, call: Call)
    requires call.Callable()
  {
    match call
    case FillByViews(v, c) => v < |w| && w[v].phase.Unfilled? && c.Accepted()
    case FillBySlices(v, c) => v < |w| && w[v].phase.Unfilled? && c.Accepted()
    case Select(v, sub) => v < |w| && w[v].phase.Filled? && Packs(SelectStrings(w[v].xs, sub))
    case _ => false
  }

  /** s is the buffer that the call gives: the layout of the records it fills with or selects. */
  ghost predicate Lays(s: seq<byte>, w: seq<PlainVec>, call: Call, host: Order)
    requires call.Callable()
  {
    match call
    case FillByViews(_, c) => Holds(s, c.Recs(), c.Wide(), host)
    case FillBySlices(_, c) => Holds(s, c.Recs(), c.Wide(), host)
    case Select(v, sub) =>
      v < |w| && exists recs :: Elements(recs) == SelectStrings(w[v].xs, sub) && Holds(s, recs, NeedsWide(Total(recs)), host)
    case _ => false
  }

  ghost predicate AllCallable(calls: seq<Call>) {
    forall k :: 0 <= k < |calls| ==> calls[k].Callable()
  }

  ghost function PlainRun(w: seq<PlainVec>, calls: seq<Call>): seq<PlainVec>
    requires AllCallable(calls)
  {
    if calls == [] then w else PlainStep(PlainRun(w, calls[..|calls| - 1]), calls[|calls| - 1])
  }

  /** What the reads of a run show, call by call. */
  ghost function PlainShows(w: seq<PlainVec>, calls: seq<Call>): (shown: seq<Option<RString>>)
    requires AllCallable(calls)
    ensures |shown| == |calls|
  {
    if calls == [] then []
    else PlainShows(w, calls[..|calls| - 1]) + [PlainShown(PlainRun(w, calls[..|calls| - 1]), calls[|calls| - 1])]
  }

  lemma {:induction false} OneMoreCall(w: seq<PlainVec>, calls: seq<Call>, k: nat)
    requires AllCallable(calls) && k < |calls|
    ensures PlainRun(w, calls[..k + 1]) == PlainStep(PlainRun(w, calls[..k]), calls[k])
    ensures PlainShows(w, calls[..k + 1]) == PlainShows(w, calls[..k]) + [PlainShown(PlainRun(w, calls[..k]), calls[k])]
  {
    assert calls[..k + 1][..k] == calls[..k];
  }

  // What one call does to plain vectors.

  /** A vector a call does not name keeps its state; the named one only moves
      forward, and its strings change only when one is set. */
  lemma {:induction false} PlainForward(w: seq<PlainVec>, call: Call, u: nat)
    requires call.Callable() && u < |w|
    ensures u < |PlainStep(w, call)| && w[u].phase.Rank() <= PlainStep(w, call)[u].phase.Rank()
    ensures !call.Names(u) ==> PlainStep(w, call)[u] == w[u]
    ensures w[u].phase.Filled? && PlainStep(w, call)[u].phase.Filled? ==> PlainStep(w, call)[u] == w[u]
    ensures !w[u].phase.Unfilled? && !call.Set? ==> PlainStep(w, call)[u].xs == w[u].xs
  {
  }

  /** Over any run every vector only moves forward, from unfilled to filled to
      materialized, and a filled one that is still filled shows what it showed. */
  lemma {:induction false} RunForward(w: seq<PlainVec>, calls: seq<Call>, u: nat)
    requires AllCallable(calls) && u < |w|
    ensures u < |PlainRun(w, calls)| && w[u].phase.Rank() <= PlainRun(w, calls)[u].phase.Rank()
    ensures w[u].phase.Filled? && PlainRun(w, calls)[u].phase.Filled? ==> PlainRun(w, calls)[u] == w[u]
  {
    if calls != [] {
      var front := calls[..|calls| - 1];
      RunForward(w, front, u);
      PlainForward(PlainRun(w, front), calls[|calls| - 1], u);
    }
  }

  /** A vector no call of a run names still shows what it showed. */
  lemma {:induction false} UntouchedUnchanged(w: seq<PlainVec>, calls: seq<Call>, u: nat)
    requires AllCallable(calls) && u < |w|
    requires forall k :: 0 <= k < |calls| ==> !calls[k].Names(u)
    ensures u < |PlainRun(w, calls)| && PlainRun(w, calls)[u] == w[u]
  {
    if calls != [] {
      var front := calls[..|calls| - 1];
      UntouchedUnchanged(w, front, u);
      PlainForward(PlainRun(w, front), calls[|calls| - 1], u);
    }
  }

  lemma {:induction false} BytesOfElements(recs: seq<Rec>, k: nat)
    requires k <= |recs|
    ensures Bytes(Elements(recs), k) == Start(recs, k)
  {
    if k > 0 {
      BytesOfElements(recs, k - 1);
    }
  }

  // Vectors on the heap.

  ghost function BuffersOf(vs: seq<Charpack>): set<array<byte>>
    reads vs
  {
    set v | 0 <= v < |vs| && vs[v].data1 != null :: vs[v].data1
  }

  ghost function StringsOf(vs: seq<Charpack>): set<array<RString>>
    reads vs
  {
    set v | 0 <= v < |vs| && vs[v].data2 != null :: vs[v].data2
  }

  /** The vector R sees. */
  ghost function Show(x: Charpack): PlainVec
    reads x, x.data2
  {
    PlainVec(x.Phase(), x.Content())
  }

  ghost function Seen(vs: seq<Charpack>): (w: seq<PlainVec>)
    reads vs, StringsOf(vs)
    ensures |w| == |vs|
  {
    seq(|vs|, v requires 0 <= v < |vs| reads vs, StringsOf(vs) => Show(vs[v]))
  }

  /** Every buffer a vector was ever given still holds the bytes it then held. */
  ghost predicate Intact(bufs: map<array<byte>, seq<byte>>)
    reads bufs.Keys
  {
    forall raw :: raw in bufs ==> raw[..] == bufs[raw]
  }

  ghost predicate VecOk(x: Charpack, bufs: map<array<byte>, seq<byte>>)
    reads x, x.data1
  {
    x.Valid() && (x.data1 != null ==> x.data1 in bufs)
  }

  /** No two vectors are one object, and no two share strings. */
  ghost predicate Apart(vs: seq<Charpack>)
    reads vs
  {
    forall u, v :: 0 <= u < v < |vs| ==> vs[u] != vs[v] && (vs[u].data2 == null || vs[u].data2 != vs[v].data2)
  }

  ghost predicate Sound(vs: seq<Charpack>, bufs: map<array<byte>, seq<byte>>)
    reads vs, BuffersOf(vs), bufs.Keys
  {
    Apart(vs) && Intact(bufs) && forall v :: 0 <= v < |vs| ==> VecOk(vs[v], bufs)
  }

  /** Only what was recorded before, and as it was recorded. */
  ghost predicate Extends(bufs: map<array<byte>, seq<byte>>, more: map<array<byte>, seq<byte>>) {
    forall raw :: raw in bufs ==> raw in more && more[raw] == bufs[raw]
  }

  lemma {:induction false} AppendSound(vs: seq<Charpack>, x: Charpack, bufs: map<array<byte>, seq<byte>>, more: map<array<byte>, seq<byte>>)
    requires Sound(vs, bufs) && Extends(bufs, more) && Intact(more) && VecOk(x, more)
    requires x !in vs && (x.data2 != null ==> x.data2 !in StringsOf(vs))
    ensures Sound(vs + [x], more) && Seen(vs + [x]) == Seen(vs) + [Show(x)]
  {
    forall v | 0 <= v < |vs| && vs[v].data2 != null
      ensures vs[v].data2 != x.data2
    {
      assert vs[v].data2 in StringsOf(vs);
    }
    forall v | 0 <= v < |vs|
      ensures VecOk(vs[v], more)
    {
      assert VecOk(vs[v], bufs);
    }
  }

  /** x is as it was. */
  twostate predicate Kept(x: Charpack)
    reads x, x.data2
  {
    && x.data1 == old(x.data1) && x.data2 == old(x.data2) && x.recs == old(x.recs) && x.wide == old(x.wide)
    && (x.data2 != null ==> x.data2[..] == old(x.data2[..]))
  }

  /** Only vector v was changed, and its strings are its own. */
  twostate predicate OnlyChanged(vs: seq<Charpack>, v: nat)
    requires v < |vs|
    reads vs, StringsOf(vs)
  {
    && (forall u :: 0 <= u < |vs| && u != v ==> Kept(vs[u]))
    && (vs[v].data2 != null ==> vs[v].data2 == old(vs[v].data2) || fresh(vs[v].data2))
  }

  twostate lemma ChangeSound(new vs: seq<Charpack>, v: nat, new bufs: map<array<byte>, seq<byte>>, new more: map<array<byte>, seq<byte>>)
    requires old(allocated(vs)) && old(allocated(bufs))
    requires v < |vs| && old(Sound(vs, bufs)) && OnlyChanged(vs, v)
    requires Extends(bufs, more) && Intact(more) && VecOk(vs[v], more)
    ensures Sound(vs, more) && Seen(vs) == old(Seen(vs))[v := Show(vs[v])]
  {
    forall u | 0 <= u < |vs| && u != v
      ensures VecOk(vs[u], more) && Show(vs[u]) == old(Show(vs[u]))
    {
      assert Kept(vs[u]) && old(VecOk(vs[u], bufs));
      if vs[u].data1 != null {
        assert old(vs[u].data1) in bufs;
      }
    }
    forall u | 0 <= u < |vs| && u != v
      ensures vs[u] != vs[v] && (vs[u].data2 == null || vs[u].data2 != vs[v].data2)
    {
      assert Kept(vs[u]);
    }
  }

  /** The record, once a buffer is made. */
  ghost function Recorded(bufs: map<array<byte>, seq<byte>>, made: Option<array<byte>>): (more: map<array<byte>, seq<byte>>)
    reads if made.Some? then {made.value} else {}
  {
    if made.None? then bufs else bufs[made.value := made.value[..]]
  }

  /** The buffer that a call gave, if it gives one: a new one, of what it should hold. */
  twostate predicate Gave(new made: Option<array<byte>>, w: seq<PlainVec>, call: Call, host: Order)
    requires call.Callable()
    reads if made.Some? then {made.value} else {}
  {
    && (made.Some? <==> GivesBuffer(w, call))
    && (made.Some? ==> fresh(made.value) && Lays(made.value[..], w, call, host))
  }

  /** All vectors are on one machine. */
  ghost predicate OneHost(vs: seq<Charpack>, host: Order) {
    forall v :: 0 <= v < |vs| ==> vs[v].host == host
  }

  method FillVecByViews(vs: seq<Charpack>, v: nat, c: ViewCall, ghost bufs: map<array<byte>, seq<byte>>, host: Order)
    returns (ghost made: Option<array<byte>>)
    requires Sound(vs, bufs) && OneHost(vs, host) && v < |vs| && c.Callable()
    modifies vs[v]
    ensures Sound(vs, Recorded(bufs, made)) && OnlyChanged(vs, v)
    ensures Seen(vs) == PlainStep(old(Seen(vs)), FillByViews(v, c)) && Gave(made, old(Seen(vs)), FillByViews(v, c), host)
  {
    assert VecOk(vs[v], bufs);
    var error := vs[v].FillFromViews(c);
    made := if error.None? then Some(vs[v].data1) else None;
    ChangeSound(vs, v, bufs, Recorded(bufs, made));
  }

  method FillVecBySlices(vs: seq<Charpack>, v: nat, c: SliceCall, ghost bufs: map<array<byte>, seq<byte>>, host: Order)
    returns (ghost made: Option<array<byte>>)
    requires Sound(vs, bufs) && OneHost(vs, host) && v < |vs| && c.Callable()
    modifies vs[v]
    ensures Sound(vs, Recorded(bufs, made)) && OnlyChanged(vs, v)
    ensures Seen(vs) == PlainStep(old(Seen(vs)), FillBySlices(v, c)) && Gave(made, old(Seen(vs)), FillBySlices(v, c), host)
  {
    assert VecOk(vs[v], bufs);
    var error := vs[v].FillFromSlices(c);
    made := if error.None? then Some(vs[v].data1) else None;
    ChangeSound(vs, v, bufs, Recorded(bufs, made));
  }

  method FillVecNa(vs: seq<Charpack>, v: nat, n: int, ghost bufs: map<array<byte>, seq<byte>>)
    requires Sound(vs, bufs) && v < |vs|
    modifies vs[v]
    ensures Sound(vs, bufs) && OnlyChanged(vs, v)
    ensures Seen(vs) == PlainStep(old(Seen(vs)), FillNa(v, n))
  {
    assert VecOk(vs[v], bufs);
    var error := vs[v].FillMaterializedNa(n);
    ChangeSound(vs, v, bufs, bufs);
  }

  method ExpandVec(vs: seq<Charpack>, v: nat, ghost bufs: map<array<byte>, seq<byte>>)
    requires Sound(vs, bufs) && v < |vs|
    modifies vs[v]
    ensures Sound(vs, bufs) && OnlyChanged(vs, v)
    ensures Seen(vs) == PlainStep(old(Seen(vs)), Expand(v))
  {
    assert VecOk(vs[v], bufs);
    var xs := vs[v].Materialize();
    ChangeSound(vs, v, bufs, bufs);
  }

  method ReadVec(vs: seq<Charpack>, v: nat, i: nat, ghost bufs: map<array<byte>, seq<byte>>) returns (shown: Option<RString>)
    requires Sound(vs, bufs) && v < |vs|
    modifies vs[v]
    ensures Sound(vs, bufs) && OnlyChanged(vs, v)
    ensures Seen(vs) == PlainStep(old(Seen(vs)), Read(v, i)) && shown == PlainShown(old(Seen(vs)), Read(v, i))
  {
    assert VecOk(vs[v], bufs);
    var n := vs[v].Length();
    if i >= n {
      return None;
    }
    var x := vs[v].Elt(i);
    shown := Some(x);
    ChangeSound(vs, v, bufs, bufs);
  }

  method SetVec(vs: seq<Charpack>, v: nat, i: nat, x: RString, ghost bufs: map<array<byte>, seq<byte>>)
    requires Sound(vs, bufs) && v < |vs|
    modifies vs[v], vs[v].data2
    ensures Sound(vs, bufs) && OnlyChanged(vs, v)
    ensures Seen(vs) == PlainStep(old(Seen(vs)), Set(v, i, x))
  {
    assert VecOk(vs[v], bufs);
    var n := vs[v].Length();
    if i >= n {
      return;
    }
    vs[v].SetElt(i, x);
    forall u | 0 <= u < |vs| && u != v
      ensures Kept(vs[u])
    {
      assert old(Apart(vs));
    }
    ChangeSound(vs, v, bufs, bufs);
  }

  /** A vector made beside the others, with strings of its own. */
  twostate predicate IsNew(new x: Charpack)
    reads x
  {
    fresh(x) && (x.data2 != null ==> fresh(x.data2))
  }

  method AddPlaceholder(vs: seq<Charpack>, host: Order, ghost bufs: map<array<byte>, seq<byte>>) returns (x: Charpack)
    requires Sound(vs, bufs)
    ensures IsNew(x) && x.host == host && Sound(vs + [x], bufs)
    ensures Seen(vs + [x]) == PlainStep(old(Seen(vs)), Placeholder)
  {
    x := new Charpack.Placeholder(host);
    AppendSound(vs, x, bufs, bufs);
  }

  method DuplicateVec(vs: seq<Charpack>, v: nat, ghost bufs: map<array<byte>, seq<byte>>) returns (x: Charpack)
    requires Sound(vs, bufs) && v < |vs|
    ensures IsNew(x) && x.host == vs[v].host && Sound(vs + [x], bufs)
    ensures Seen(vs + [x]) == PlainStep(old(Seen(vs)), Duplicate(v))
  {
    assert VecOk(vs[v], bufs);
    var shared, plain := vs[v].Duplicate();
    if shared != null {
      x := shared;
    } else {
      x := new Charpack.Ordinary(plain, vs[v].host);
    }
    AppendSound(vs, x, bufs, bufs);
  }

  /** R's own subsetting of strings. */
  method SelectPlain(x: Charpack, sub: Subscripts) returns (out: array<RString>)
    requires x.Valid() && x.Phase() != Filled
    ensures fresh(out) && out[..] == SelectStrings(x.Content(), sub)
  {
    var xs := x.data2;
    if xs == null {
      out := new RString[sub.Size()](_ => NaString);
    } else {
      out := new RString[sub.Size()](j requires 0 <= j < sub.Size() reads xs =>
        var i := sub.Selected(j, xs.Length); if i == xs.Length then NaString else xs[i]);
    }
  }

  method SelectOrdinary(vs: seq<Charpack>, v: nat, sub: Subscripts, ghost bufs: map<array<byte>, seq<byte>>) returns (x: Charpack)
    requires Sound(vs, bufs) && v < |vs| && vs[v].Phase() != Filled && sub.Size() <= XLEN_MAX
    ensures IsNew(x) && x.host == vs[v].host && Sound(vs + [x], bufs)
    ensures Seen(vs + [x]) == PlainStep(old(Seen(vs)), Select(v, sub)) && !GivesBuffer(old(Seen(vs)), Select(v, sub))
  {
    assert VecOk(vs[v], bufs);
    var out := SelectPlain(vs[v], sub);
    x := new Charpack.Ordinary(out, vs[v].host);
    AppendSound(vs, x, bufs, bufs);
  }

  /** A subset of a filled vector: filled with the selected records, if a buffer holds them. */
  method SelectPacked(vs: seq<Charpack>, v: nat, sub: Subscripts, ghost bufs: map<array<byte>, seq<byte>>, host: Order)
    returns (x: Charpack?, ghost made: Option<array<byte>>)
    requires Sound(vs, bufs) && OneHost(vs, host) && v < |vs| && vs[v].Phase() == Filled && sub.Size() <= XLEN_MAX
    ensures x == null <==> !Packs(SelectStrings(vs[v].Content(), sub))
    ensures x == null ==> made == None
    ensures x != null ==>
              && IsNew(x) && x.host == host && made.Some? && fresh(made.value) && Lays(made.value[..], Seen(vs), Select(v, sub), host)
              && Sound(vs + [x], Recorded(bufs, made))
              && Seen(vs + [x]) == Seen(vs) + [PlainVec(Filled, SelectStrings(vs[v].Content(), sub))]
  {
    var y := vs[v];
    assert VecOk(y, bufs);
    ghost var recs := Subset(y.recs, sub);
    SelectCommutes(y.recs, sub);
    BytesOfElements(recs, sub.Size());
    var out := ExtractSubset(y.data1, y.host, sub, y.recs, y.wide);
    if out.Err? {
      return null, None;
    }
    x := new Charpack.Adopt(out.value, y.host, recs, NeedsWide(Total(recs)));
    made := Some(out.value);
    AppendSound(vs, x, bufs, Recorded(bufs, made));
  }

  method SelectVec(vs: seq<Charpack>, v: nat, sub: Subscripts, ghost bufs: map<array<byte>, seq<byte>>, host: Order)
    returns (x: Charpack?, ghost made: Option<array<byte>>)
    requires Sound(vs, bufs) && OneHost(vs, host) && v < |vs| && sub.Size() <= XLEN_MAX
    ensures Gave(made, old(Seen(vs)), Select(v, sub), host)
    ensures x == null ==> made == None && Sound(vs, bufs) && Seen(vs) == PlainStep(old(Seen(vs)), Select(v, sub))
    ensures x != null ==>
              && IsNew(x) && x.host == host && Sound(vs + [x], Recorded(bufs, made))
              && Seen(vs + [x]) == PlainStep(old(Seen(vs)), Select(v, sub))
  {
    assert VecOk(vs[v], bufs);
    if vs[v].data1 == null || vs[v].data2 != null {
      x := SelectOrdinary(vs, v, sub, bufs);
      made := None;
    } else {
      ghost var w := Seen(vs);
      PackedSelect(w, v, sub);
      x, made := SelectPacked(vs, v, sub, bufs, host);
      assert Seen(vs) == w;
    }
  }

  lemma {:induction false} PackedSelect(w: seq<PlainVec>, v: nat, sub: Subscripts)
    requires v < |w| && w[v].phase.Filled? && sub.Size() <= XLEN_MAX
    ensures var out := SelectStrings(w[v].xs, sub);
            && (GivesBuffer(w, Select(v, sub)) <==> Packs(out))
            && PlainStep(w, Select(v, sub)) == if Packs(out) then w + [PlainVec(Filled, out)] else w
  {
  }

  /** The vectors and their strings are among these. */
  ghost predicate Owns(own: set<object>, vs: seq<Charpack>)
    reads vs
  {
    forall v :: 0 <= v < |vs| ==> vs[v] in own && (vs[v].data2 != null ==> vs[v].data2 in own)
  }

  /** The strings a vector now has may be new. */
  ghost function Widened(own: set<object>, x: Charpack): (more: set<object>)
    reads x
    ensures own <= more && x in more && (x.data2 != null ==> x.data2 in more)
  {
    own + {x} + if x.data2 == null then {} else {x.data2}
  }

  twostate lemma ChangeOwned(new vs: seq<Charpack>, v: nat, new own: set<object>)
    requires old(allocated(vs)) && old(allocated(own)) && v < |vs| && old(Owns(own, vs)) && OnlyChanged(vs, v)
    ensures Owns(Widened(own, vs[v]), vs) && fresh(Widened(own, vs[v]) - own)
  {
    forall u | 0 <= u < |vs| && u != v
      ensures vs[u].data2 != null ==> vs[u].data2 in own
    {
      assert Kept(vs[u]) && vs[u] in own;
    }
  }

  /** A call that changes a vector. */
  method StepChange(vs: seq<Charpack>, call: Call, ghost bufs: map<array<byte>, seq<byte>>, host: Order)
    returns (shown: Option<RString>, ghost made: Option<array<byte>>)
    requires Sound(vs, bufs) && OneHost(vs, host)
    requires call.Callable() && !call.Placeholder? && call.Names(call.v) && call.v < |vs|
    modifies vs[call.v], vs[call.v].data2
    ensures Sound(vs, Recorded(bufs, made)) && OnlyChanged(vs, call.v) && Gave(made, old(Seen(vs)), call, host)
    ensures Seen(vs) == PlainStep(old(Seen(vs)), call) && shown == PlainShown(old(Seen(vs)), call)
  {
    shown, made := None, None;
    match call
    case FillByViews(v, c) => made := FillVecByViews(vs, v, c, bufs, host);
    case FillBySlices(v, c) => made := FillVecBySlices(vs, v, c, bufs, host);
    case FillNa(v, n) => FillVecNa(vs, v, n, bufs);
    case Expand(v) => ExpandVec(vs, v, bufs);
    case Read(v, i) => shown := ReadVec(vs, v, i, bufs);
    case Set(v, i, x) => SetVec(vs, v, i, x, bufs);
  }

  /** A call that makes a vector. */
  method StepMake(vs: seq<Charpack>, host: Order, call: Call, ghost bufs: map<array<byte>, seq<byte>>)
    returns (x: Charpack?, ghost made: Option<array<byte>>)
    requires Sound(vs, bufs) && OneHost(vs, host)
    requires call.Callable() && (call.Placeholder? || (!call.Names(call.v) && call.v < |vs|))
    ensures Gave(made, old(Seen(vs)), call, host)
    ensures x == null ==> made == None && Sound(vs, bufs) && Seen(vs) == PlainStep(old(Seen(vs)), call)
    ensures x != null ==>
              && IsNew(x) && x.host == host && Sound(vs + [x], Recorded(bufs, made))
              && Seen(vs + [x]) == PlainStep(old(Seen(vs)), call)
  {
    made := None;
    match call
    case Placeholder => x := AddPlaceholder(vs, host, bufs);
    case Duplicate(v) => x := DuplicateVec(vs, v, bufs);
    case Select(v, sub) => x, made := SelectVec(vs, v, sub, bufs, host);
  }

  /** One call does to what R sees exactly what it does to plain vectors. */
  method Step(vs: seq<Charpack>, host: Order, call: Call, ghost bufs: map<array<byte>, seq<byte>>, ghost own: set<object>)
    returns (ws: seq<Charpack>, shown: Option<RString>, ghost made: Option<array<byte>>, ghost owned: set<object>)
    requires Sound(vs, bufs) && OneHost(vs, host) && call.Callable() && Owns(own, vs)
    modifies own
    ensures Sound(ws, Recorded(bufs, made)) && OneHost(ws, host) && Gave(made, old(Seen(vs)), call, host)
    ensures Owns(owned, ws) && own <= owned && fresh(owned - own)
    ensures vs <= ws && Seen(ws) == PlainStep(old(Seen(vs)), call) && shown == PlainShown(old(Seen(vs)), call)
  {
    ws, shown, made, owned := vs, None, None, own;
    if !call.Placeholder? && call.v >= |vs| {
      return;
    }
    if !call.Placeholder? && call.Names(call.v) {
      shown, made := StepChange(vs, call, bufs, host);
      ChangeOwned(vs, call.v, own);
      owned := Widened(own, vs[call.v]);
    } else {
      var x;
      x, made := StepMake(vs, host, call, bufs);
      if x != null {
        ws := vs + [x];
        owned := Widened(own, x);
      }
    }
  }

  /** The vectors after k calls. */
  ghost function Before(start: seq<PlainVec>, calls: seq<Call>, k: nat): seq<PlainVec>
    requires AllCallable(calls) && k <= |calls|
  {
    PlainRun(start, calls[..k])
  }

  /** By the record, the buffer that a call gave, if it gives one, holds exactly what the call laid out. */
  ghost predicate GaveAt(m: Option<array<byte>>, more: map<array<byte>, seq<byte>>, w: seq<PlainVec>, call: Call, host: Order)
    requires call.Callable()
  {
    && (m.Some? <==> GivesBuffer(w, call))
    && (m.Some? ==> m.value in more && Lays(more[m.value], w, call, host))
  }

  /** made lists, call by call, the buffers that the calls gave. */
  ghost predicate AllGave(made: seq<Option<array<byte>>>, more: map<array<byte>, seq<byte>>, start: seq<PlainVec>, calls: seq<Call>, host: Order)
    requires AllCallable(calls)
  {
    |made| <= |calls| && forall k :: 0 <= k < |made| ==> GaveAt(made[k], more, Before(start, calls, k), calls[k], host)
  }

  lemma {:induction false} StillGave(m: Option<array<byte>>, bufs: map<array<byte>, seq<byte>>, more: map<array<byte>, seq<byte>>,
                                     w: seq<PlainVec>, call: Call, host: Order)
    requires call.Callable() && Extends(bufs, more) && GaveAt(m, bufs, w, call, host)
    ensures GaveAt(m, more, w, call, host)
  {
  }

  lemma {:induction false} OneMoreGave(made: seq<Option<array<byte>>>, bufs: map<array<byte>, seq<byte>>, m: Option<array<byte>>,
                                       more: map<array<byte>, seq<byte>>, start: seq<PlainVec>, calls: seq<Call>, host: Order)
    requires AllCallable(calls) && AllGave(made, bufs, start, calls, host) && |made| < |calls| && Extends(bufs, more)
    requires GaveAt(m, more, Before(start, calls, |made|), calls[|made|], host)
    ensures AllGave(made + [m], more, start, calls, host)
  {
    forall k | 0 <= k < |made|
      ensures GaveAt(made[k], more, Before(start, calls, k), calls[k], host)
    {
      StillGave(made[k], bufs, more, Before(start, calls, k), calls[k], host);
    }
  }

  /** What holds after k calls of a run. */
  ghost predicate Ran(ws: seq<Charpack>, shown: seq<Option<RString>>, made: seq<Option<array<byte>>>, more: map<array<byte>, seq<byte>>,
                      start: seq<PlainVec>, calls: seq<Call>, k: nat, bufs: map<array<byte>, seq<byte>>, host: Order)
    requires AllCallable(calls)
    reads ws, BuffersOf(ws), StringsOf(ws), more.Keys
  {
    && k <= |calls| && |made| == k && Sound(ws, more) && OneHost(ws, host)
    && Extends(bufs, more) && AllGave(made, more, start, calls, host) && (forall raw :: raw in more ==> raw in bufs || Some(raw) in made)
    && Seen(ws) == Before(start, calls, k) && shown == PlainShows(start, calls[..k])
  }

  lemma {:induction false} RanNothing(vs: seq<Charpack>, calls: seq<Call>, bufs: map<array<byte>, seq<byte>>, host: Order)
    requires AllCallable(calls) && Sound(vs, bufs) && OneHost(vs, host)
    ensures Ran(vs, [], [], bufs, Seen(vs), calls, 0, bufs, host)
  {
    assert calls[..0] == [];
  }

  lemma {:induction false} RecordedMore(made: seq<Option<array<byte>>>, bufs: map<array<byte>, seq<byte>>, was: map<array<byte>, seq<byte>>,
                                        m: Option<array<byte>>)
    requires Extends(bufs, was) && (m.Some? ==> m.value !in was)
    requires forall raw :: raw in was ==> raw in bufs || Some(raw) in made
    ensures Extends(was, Recorded(was, m)) && Extends(bufs, Recorded(was, m))
    ensures forall raw :: raw in Recorded(was, m) ==> raw in bufs || Some(raw) in made + [m]
  {
  }

  /** One more call of a run. */
  method RunNext(vs: seq<Charpack>, shown: seq<Option<RString>>, host: Order, calls: seq<Call>, k: nat, ghost start: seq<PlainVec>,
                 ghost made: seq<Option<array<byte>>>, ghost bufs: map<array<byte>, seq<byte>>, ghost was: map<array<byte>, seq<byte>>,
                 ghost own: set<object>)
    returns (ws: seq<Charpack>, x: Option<RString>, ghost m: Option<array<byte>>, ghost owned: set<object>)
    requires AllCallable(calls) && Ran(vs, shown, made, was, start, calls, k, bufs, host) && k < |calls| && Owns(own, vs)
    modifies own
    ensures Ran(ws, shown + [x], made + [m], Recorded(was, m), start, calls, k + 1, bufs, host) && vs <= ws
    ensures Owns(owned, ws) && own <= owned && fresh(owned - own)
  {
    OneMoreCall(start, calls, k);
    ws, x, m, owned := Step(vs, host, calls[k], was, own);
    RecordedMore(made, bufs, was, m);
    OneMoreGave(made, was, m, Recorded(was, m), start, calls, host);
  }

  /** Over any run of calls, charpacks that share buffers look like plain vectors
      that share nothing: a fill works only once and only on a placeholder, a
      write or a materialization of one vector changes no element of another, and
      every read shows the plain vector's string. Every buffer there was before
      the run is unchanged at its end, byte for byte, and every buffer that a call
      of the run gave still holds exactly what that call laid out. */
  method RunCalls(vs: seq<Charpack>, host: Order, calls: seq<Call>, ghost bufs: map<array<byte>, seq<byte>>)
    returns (ws: seq<Charpack>, shown: seq<Option<RString>>, ghost made: seq<Option<array<byte>>>, ghost more: map<array<byte>, seq<byte>>)
    requires Sound(vs, bufs) && OneHost(vs, host) && AllCallable(calls)
    modifies vs, StringsOf(vs)
    ensures Sound(ws, more) && OneHost(ws, host) && Extends(bufs, more)
    ensures |made| == |calls| && AllGave(made, more, old(Seen(vs)), calls, host)
    ensures forall raw :: raw in more ==> raw in bufs || Some(raw) in made
    ensures vs <= ws && Seen(ws) == PlainRun(old(Seen(vs)), calls)
    ensures shown == PlainShows(old(Seen(vs)), calls)
  {
    ghost var start := Seen(vs);
    ghost var objects: set<object>, strings: set<object> := (set x | x in vs), StringsOf(vs);
    ghost var all := objects + strings;
    ghost var own := all;
    ws, shown, made, more := vs, [], [], bufs;
    RanNothing(vs, calls, bufs, host);
    var k := 0;
    while k < |calls|
      invariant k <= |calls| && Ran(ws, shown, made, more, start, calls, k, bufs, host) && vs <= ws
      invariant Owns(own, ws) && all <= own && fresh(own - all)
    {
      var x;
      ghost var m;
      ws, x, m, own := RunNext(ws, shown, host, calls, k, start, made, bufs, more, own);
      shown, made, more := shown + [x], made + [m], Recorded(more, m);
      k := k + 1;
    }
    assert calls[..k] == calls;
  }

  /** So every vector only moves forward, from unfilled to filled to materialized,
      and one that no call names is, at the end of a run, what it was. */
  method RunKeeps(vs: seq<Charpack>, host: Order, calls: seq<Call>, ghost bufs: map<array<byte>, seq<byte>>)
    returns (ws: seq<Charpack>)
    requires Sound(vs, bufs) && OneHost(vs, host) && AllCallable(calls)
    modifies vs, StringsOf(vs)
    ensures vs <= ws && forall u :: 0 <= u < |vs| ==> old(vs[u].Phase()).Rank() <= ws[u].Phase().Rank()
    ensures forall u :: 0 <= u < |vs| && (forall k :: 0 <= k < |calls| ==> !calls[k].Names(u)) ==> Show(ws[u]) == old(Show(vs[u]))
  {
    ghost var start := Seen(vs);
    var shown;
    ghost var made, more;
    ws, shown, made, more := RunCalls(vs, host, calls, bufs);
    forall u | 0 <= u < |vs|
      ensures start[u].phase.Rank() <= ws[u].Phase().Rank()
      ensures (forall k :: 0 <= k < |calls| ==> !calls[k].Names(u)) ==> Show(ws[u]) == start[u]
    {
      RunForward(start, calls, u);
      assert Seen(ws)[u] == Show(ws[u]);
      if forall k :: 0 <= k < |calls| ==> !calls[k].Names(u) {
        UntouchedUnchanged(start, calls, u);
      }
    }
  }
}
