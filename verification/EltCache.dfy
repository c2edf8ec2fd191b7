/** The charvec as R sees it: records with a cache of the strings R was given,
    in chunks, or the strings themselves once materialized. */
module EltCache {
  import opened Records
  import opened RStrings
  import opened PackSubset
  import Stores

  const CHUNK := 1024

  function ChunkCount(n: nat): nat {
    n / CHUNK + if n % CHUNK != 0 then 1 else 0
  }

  function ChunkLen(n: nat, c: nat): nat
    requires c < ChunkCount(n)
  {
    if n - c * CHUNK > CHUNK then CHUNK else n - c * CHUNK
  }

  /** Every element has one slot: chunk i / 1024, slot i % 1024. */
  lemma {:induction false} SlotOf(n: nat, i: nat)
    requires i < n
    ensures i / CHUNK == i / 1024 < ChunkCount(n) && i % CHUNK == i % 1024 < ChunkLen(n, i / CHUNK)
    ensures (i / CHUNK) * CHUNK + i % CHUNK == i
  {
  }

  /** Every slot is one element's. */
  lemma {:induction false} ElementOfSlot(n: nat, c: nat, j: nat)
    requires c < ChunkCount(n) && j < ChunkLen(n, c)
    ensures c * CHUNK + j < n && (c * CHUNK + j) / CHUNK == c && (c * CHUNK + j) % CHUNK == j
    ensures 0 < ChunkLen(n, c) <= CHUNK
  {
  }

  /** A CHARSXP: an object, told apart by its identity, with a content. */
  datatype Obj = Obj(id: nat, value: RString)

  /** R_BlankString and NA_STRING. */
  const BLANK := Obj(0, Chars([], Unmarked))
  const NA_OBJ := Obj(1, NaString)

  /** The object R makes for a record. R has one blank string and one NA; of any
      other content it may make a new object or give one it has, as it chooses. */
  function Mint(r: Rec, id: nat): (o: Obj)
    ensures o.value == Element(r)
  {
    if r.NA? then NA_OBJ
    else if Element(r) == BLANK.value then BLANK
    else Obj(id + 2, Element(r))
  }

  /** A chunk, once allocated, is a block of slots; BLANK marks a miss. */
  type Chunk = Option<seq<Obj>>

  datatype Vec = Vec(recs: seq<Rec>, chunks: Option<seq<Chunk>>, data2: Option<seq<Obj>>) {
    function Length(): nat {
      if data2.Some? then |data2.value| else |recs|
    }

    /** The vector R sees. */
    function Content(): (xs: seq<RString>)
      ensures |xs| == Length()
    {
      if data2.Some? then seq(|data2.value|, i requires 0 <= i < |data2.value| => data2.value[i].value) else Elements(recs)
    }

    /** The object rooted for element i, BLANK when there is none. */
    function Held(i: nat): Obj
      requires i < Length() && Shaped()
    {
      if data2.Some? then data2.value[i]
      else
        SlotOf(|recs|, i);
        if chunks.None? || chunks.value[i / CHUNK].None? then BLANK
        else chunks.value[i / CHUNK].value[i % CHUNK]
    }

    predicate Allocated(c: nat) {
      chunks.Some? && c < |chunks.value| && chunks.value[c].Some?
    }

    /** The chunks are there, and as long as they should be. */
    ghost predicate Shaped() {
      && (data2.Some? ==> chunks.None? && recs == [])
      && (chunks.Some? ==>
            && |chunks.value| == ChunkCount(|recs|)
            && forall c {:trigger chunks.value[c]} :: 0 <= c < |chunks.value| && chunks.value[c].Some? ==>
                 |chunks.value[c].value| == ChunkLen(|recs|, c))
    }

    /** What the cache holds is what the records are. */
    ghost predicate Ok() {
      Shaped() && forall i :: 0 <= i < Length() ==> Held(i) == BLANK || Held(i).value == Content()[i]
    }
  }

  function Blanks(n: nat): (chunk: seq<Obj>)
    ensures |chunk| == n
  {
    seq(n, _ => BLANK)
  }

  /** A cache of n elements once chunk c is allocated. */
  function TouchCache(chunks: Option<seq<Chunk>>, n: nat, c: nat): (cs: seq<Chunk>)
    requires c < ChunkCount(n) && (chunks.Some? ==> |chunks.value| == ChunkCount(n))
    ensures |cs| == ChunkCount(n) && cs[c].Some?
  {
    var cs := if chunks.Some? then chunks.value else seq(ChunkCount(n), _ => None);
    if cs[c].Some? then cs else cs[c := Some(Blanks(ChunkLen(n, c)))]
  }

  /** Allocates the cache and chunk c on first touch. */
  function Touch(v: Vec, c: nat): (t: Vec)
    requires v.Shaped() && v.data2.None? && c < ChunkCount(|v.recs|)
    ensures t.Shaped() && t.data2.None? && t.recs == v.recs && t.Allocated(c)
  {
    v.(chunks := Some(TouchCache(v.chunks, |v.recs|, c)))
  }

  /** Puts an object in element i's slot, if its chunk is there. */
  function PutSlot(v: Vec, i: nat, o: Obj): (t: Vec)
    requires v.Shaped() && v.data2.None? && i < |v.recs|
    ensures t.Shaped() && t.data2.None? && t.recs == v.recs
  {
    SlotOf(|v.recs|, i);
    var c := i / CHUNK;
    if v.Allocated(c) then v.(chunks := Some(v.chunks.value[c := Some(v.chunks.value[c].value[i % CHUNK := o])])) else v
  }

  lemma {:induction false} TouchHeld(v: Vec, c: nat, k: nat)
    requires v.Shaped() && v.data2.None? && c < ChunkCount(|v.recs|) && k < |v.recs|
    ensures Touch(v, c).Held(k) == v.Held(k)
  {
    SlotOf(|v.recs|, k);
  }

  lemma {:induction false} PutSlotHeld(v: Vec, i: nat, o: Obj, k: nat)
    requires v.Shaped() && v.data2.None? && i < |v.recs| && k < |v.recs|
    ensures PutSlot(v, i, o).Held(k) == if k == i && v.Allocated(i / CHUNK) then o else v.Held(k)
  {
    SlotOf(|v.recs|, i);
    SlotOf(|v.recs|, k);
  }

  /** STRING_ELT: the cached object, or a new one, which is cached unless it is blank. */
  function Elt(v: Vec, i: nat, id: nat): (Vec, Obj)
    requires v.Shaped() && i < v.Length()
  {
    if v.data2.Some? then (v, v.data2.value[i])
    else
      SlotOf(|v.recs|, i);
      var t := Touch(v, i / CHUNK);
      var o := t.Held(i);
      if o != BLANK then (t, o)
      else
        var made := Mint(v.recs[i], id);
        (if made != BLANK then PutSlot(t, i, made) else t, made)
  }

  /** SET_STRING_ELT: the Store gets the record, and an allocated chunk the object. */
  function SetElt(v: Vec, i: nat, x: Obj): (t: Vec)
    requires v.Shaped() && i < v.Length()
    ensures t.Shaped() && t.Length() == v.Length()
  {
    if v.data2.Some? then v.(data2 := Some(v.data2.value[i := x]))
    else
      var t := PutSlot(v, i, x);
      t.(recs := t.recs[i := FromString(x.value)])
  }

  /** Materializing: the cached objects, and new ones for the rest. The Store is freed. */
  function Materialize(v: Vec, ids: nat -> nat): (t: Vec)
    requires v.Shaped()
    ensures t.Shaped() && t.Length() == v.Length() && t.data2.Some?
  {
    if v.data2.Some? then v
    else Vec([], None, Some(seq(|v.recs|, i requires 0 <= i < |v.recs| => Picked(v, i, ids(i)))))
  }

  function Picked(v: Vec, i: nat, id: nat): Obj
    requires v.Shaped() && i < v.Length() && v.data2.None?
  {
    if v.Held(i) != BLANK then v.Held(i) else Mint(v.recs[i], id)
  }

  /** Copies share nothing: a new Store, or a plain character vector. */
  function Duplicate(v: Vec): (t: Vec)
    requires v.Shaped()
    ensures t.Shaped() && t.Content() == v.Content()
  {
    if v.data2.Some? then v else Vec(v.recs, None, None)
  }

  // What each operation keeps.

  lemma {:induction false} EltOk(v: Vec, i: nat, id: nat)
    requires v.Ok() && i < v.Length()
    ensures var (t, o) := Elt(v, i, id);
            && t.Ok() && t.Content() == v.Content()
            && o.value == v.Content()[i]
            && (v.Held(i) != BLANK ==> o == v.Held(i))
            && t.Held(i) == o
            && forall k :: 0 <= k < v.Length() && k != i ==> t.Held(k) == v.Held(k)
  {
    if v.data2.None? {
      SlotOf(|v.recs|, i);
      var t, made := Touch(v, i / CHUNK), Mint(v.recs[i], id);
      forall k | 0 <= k < |v.recs|
        ensures t.Held(k) == v.Held(k)
        ensures PutSlot(t, i, made).Held(k) == if k == i then made else v.Held(k)
      {
        TouchHeld(v, i / CHUNK, k);
        PutSlotHeld(t, i, made, k);
      }
    }
  }

  lemma {:induction false} SetEltHeld(v: Vec, i: nat, x: Obj, k: nat)
    requires v.Shaped() && v.data2.None? && i < |v.recs| && k < |v.recs|
    ensures SetElt(v, i, x).Held(k) == if k == i && v.Allocated(i / CHUNK) then x else v.Held(k)
  {
    PutSlotHeld(v, i, x, k);
    SlotOf(|v.recs|, k);
  }

  lemma {:induction false} SetEltContent(v: Vec, i: nat, x: Obj)
    requires v.Shaped() && i < v.Length() && x.value.Proper()
    ensures SetElt(v, i, x).Content() == v.Content()[i := x.value]
  {
    ElementOfString(x.value);
  }

  /** A slot that is not allocated is blank. */
  lemma {:induction false} BlankElsewhere(v: Vec, i: nat)
    requires v.Shaped() && v.data2.None? && i < |v.recs| && !v.Allocated(i / CHUNK)
    ensures v.Held(i) == BLANK
  {
    SlotOf(|v.recs|, i);
  }

  lemma {:induction false} SetEltOk(v: Vec, i: nat, x: Obj)
    requires v.Ok() && i < v.Length() && x.value.Proper()
    ensures var t := SetElt(v, i, x);
            && t.Ok() && t.Content() == v.Content()[i := x.value]
            && forall k :: 0 <= k < v.Length() && k != i ==> t.Held(k) == v.Held(k)
  {
    var t := SetElt(v, i, x);
    SetEltContent(v, i, x);
    forall k | 0 <= k < v.Length()
      ensures k != i ==> t.Held(k) == v.Held(k)
      ensures t.Held(k) == BLANK || t.Held(k).value == t.Content()[k]
    {
      if v.data2.None? {
        SetEltHeld(v, i, x, k);
        if !v.Allocated(i / CHUNK) {
          BlankElsewhere(v, i);
        }
      }
      assert v.Held(k) == BLANK || v.Held(k).value == v.Content()[k];
    }
  }

  lemma {:induction false} MaterializeOk(v: Vec, ids: nat -> nat)
    requires v.Ok()
    ensures var t := Materialize(v, ids);
            && t.Ok() && t.Content() == v.Content()
            && forall k :: 0 <= k < v.Length() && v.Held(k) != BLANK ==> t.Held(k) == v.Held(k)
  {
    var t := Materialize(v, ids);
    forall k | 0 <= k < v.Length()
      ensures t.Held(k).value == v.Content()[k] && (v.Held(k) != BLANK ==> t.Held(k) == v.Held(k))
    {
      assert v.Held(k) == BLANK || v.Held(k).value == v.Content()[k];
      if v.data2.None? {
        assert t.Held(k) == Picked(v, k, ids(k)) && v.Content()[k] == Element(v.recs[k]);
      }
    }
  }

  /** A direct write to the Store, for which the vector must be neither
      materialized nor cached. */
  function Pour(v: Vec, i: nat, r: Rec): (t: Vec)
    requires v.Shaped() && i < v.Length()
    ensures t.Shaped() && t.Length() == v.Length()
  {
    if v.data2.Some? || v.chunks.Some? then v else v.(recs := v.recs[i := r])
  }

  lemma {:induction false} PourOk(v: Vec, i: nat, r: Rec)
    requires v.Ok() && i < v.Length()
    ensures var t := Pour(v, i, r);
            && t.Ok() && t.Content() == (if v.data2.Some? || v.chunks.Some? then v.Content() else v.Content()[i := Element(r)])
            && forall k :: 0 <= k < v.Length() ==> t.Held(k) == v.Held(k)
  {
  }

  /** A subset: selected records in a Store of their own, or a plain vector of the
      selected objects. */
  function SelectFrom(v: Vec, sub: Subscripts): (t: Vec)
    requires v.Shaped()
    ensures t.Shaped() && t.Length() == sub.Size()
  {
    if v.data2.None? then Vec(Subset(v.recs, sub), None, None)
    else Vec([], None, Some(SelectObjs(v.data2.value, sub)))
  }

  function SelectObjs(xs: seq<Obj>, sub: Subscripts): (out: seq<Obj>)
    ensures |out| == sub.Size()
  {
    seq(sub.Size(), j requires 0 <= j < sub.Size() =>
      var i := sub.Selected(j, |xs|); if i == |xs| then NA_OBJ else xs[i])
  }

  lemma {:induction false} SelectOk(v: Vec, sub: Subscripts)
    requires v.Ok()
    ensures SelectFrom(v, sub).Ok() && SelectFrom(v, sub).Content() == SelectStrings(v.Content(), sub)
  {
    if v.data2.None? {
      SelectCommutes(v.recs, sub);
    }
  }

  lemma {:induction false} DuplicateOk(v: Vec)
    requires v.Ok()
    ensures Duplicate(v).Ok()
  {
  }

  // Runs over any number of vectors.

  datatype Op =
    | Read(v: nat, i: nat, id: nat)
    | Write(v: nat, i: nat, x: Obj)
    | Direct(v: nat, i: nat, value: Stores.View)
    | Expand(v: nat, ids: nat -> nat)
    | Compact(v: nat)
    | Copy(v: nat)
    | Select(v: nat, sub: Subscripts)
  {
    ghost predicate Ok() {
      (Write? ==> x.value.Proper()) && (Direct? ==> value.Readable()) && (Select? ==> sub.Size() <= Stores.MAX_CAPACITY)
    }

    /** The operation makes a vector and changes none. */
    predicate Makes() {
      Copy? || Select?
    }

    /** The operation may put something else in element i of vector v. */
    predicate Assigns(u: nat, k: nat) {
      (Write? && v == u && i == k) || (Direct? && v == u && i == k)
    }
  }

  ghost predicate AllOk(w: seq<Vec>) {
    forall v :: 0 <= v < |w| ==> w[v].Ok()
  }

  /** What an operation that makes no vector does to its own. */
  ghost function Change(v: Vec, op: Op): (t: Vec)
    requires v.Shaped()
    ensures t.Shaped()
  {
    match op
    case Read(_, i, id) => if i < v.Length() then Elt(v, i, id).0 else v
    case Write(_, i, x) => if i < v.Length() then SetElt(v, i, x) else v
    case Direct(_, i, value) => if i < v.Length() then Pour(v, i, value.Stored()) else v
    case Expand(_, ids) => Materialize(v, ids)
    // It moves bytes within the Store, which changes neither records nor cache.
    case Compact(_) => v
    case Copy(_) => v
    case Select(_, _) => v
  }

  /** The vector that an operation makes. */
  ghost function Made(v: Vec, op: Op): (t: Vec)
    requires v.Shaped() && op.Makes()
    ensures t.Shaped()
  {
    if op.Copy? then Duplicate(v) else SelectFrom(v, op.sub)
  }

  ghost function Step(w: seq<Vec>, op: Op): seq<Vec>
    requires AllOk(w)
  {
    if op.v >= |w| then w
    else if op.Makes() then w + [Made(w[op.v], op)]
    else w[op.v := Change(w[op.v], op)]
  }

  /** The object that a read hands out. */
  ghost function GivenBy(v: Vec, op: Op): Option<Obj>
    requires v.Shaped()
  {
    if op.Read? && op.i < v.Length() then Some(Elt(v, op.i, op.id).1) else None
  }

  ghost function Given(w: seq<Vec>, op: Op): Option<Obj>
    requires AllOk(w)
  {
    if op.v < |w| then GivenBy(w[op.v], op) else None
  }

  /** A plain vector: its strings, whether one was ever read, and whether all were. */
  datatype Plain = Plain(xs: seq<RString>, read: bool, expanded: bool)

  ghost function Seen(v: Vec): Plain {
    Plain(v.Content(), v.chunks.Some? && v.data2.None?, v.data2.Some?)
  }

  function PlainChange(v: Plain, op: Op): Plain {
    match op
    case Read(_, i, _) => if i < |v.xs| then v.(read := !v.expanded) else v
    case Write(_, i, x) => if i < |v.xs| then v.(xs := v.xs[i := x.value]) else v
    case Direct(_, i, value) =>
      if i < |v.xs| && !v.read && !v.expanded then v.(xs := v.xs[i := Element(value.Stored())]) else v
    case Expand(_, _) => v.(read := false, expanded := true)
    case Compact(_) => v
    case Copy(_) => v.(read := false)
    case Select(_, sub) => Plain(SelectStrings(v.xs, sub), false, v.expanded)
  }

  function PlainStep(w: seq<Plain>, op: Op): seq<Plain> {
    if op.v >= |w| then w
    else if op.Makes() then w + [PlainChange(w[op.v], op)]
    else w[op.v := PlainChange(w[op.v], op)]
  }

  ghost function SeenAll(w: seq<Vec>): (s: seq<Plain>)
    ensures |s| == |w|
  {
    seq(|w|, v requires 0 <= v < |w| => Seen(w[v]))
  }

  lemma {:induction false} ChangeRefines(v: Vec, op: Op)
    requires v.Ok() && op.Ok() && !op.Makes()
    ensures Change(v, op).Ok() && Seen(Change(v, op)) == PlainChange(Seen(v), op)
  {
    match op
    case Read(_, i, id) => if i < v.Length() { EltOk(v, i, id); }
    case Write(_, i, x) => if i < v.Length() { SetEltOk(v, i, x); }
    case Direct(_, i, value) => if i < v.Length() { PourOk(v, i, value.Stored()); }
    case Expand(_, ids) => MaterializeOk(v, ids);
    case Compact(_) =>
  }

  lemma {:induction false} StepRefines(w: seq<Vec>, op: Op)
    requires AllOk(w) && op.Ok()
    ensures AllOk(Step(w, op)) && SeenAll(Step(w, op)) == PlainStep(SeenAll(w), op)
  {
    if op.v < |w| {
      match op
      case Copy(_) => DuplicateOk(w[op.v]);
      case Select(_, sub) => SelectOk(w[op.v], sub);
      case _ => ChangeRefines(w[op.v], op);
    }
  }

  ghost predicate OpsOk(ops: seq<Op>) {
    forall k :: 0 <= k < |ops| ==> ops[k].Ok()
  }

  ghost function Run(w: seq<Vec>, ops: seq<Op>): (t: seq<Vec>)
    requires AllOk(w) && OpsOk(ops)
    ensures AllOk(t)
    decreases |ops|
  {
    if ops == [] then w
    else
      StepRefines(w, ops[0]);
      Run(Step(w, ops[0]), ops[1..])
  }

  /** What the reads of a run hand out, operation by operation. */
  ghost function RunGiven(w: seq<Vec>, ops: seq<Op>): (given: seq<Option<Obj>>)
    requires AllOk(w) && OpsOk(ops)
    ensures |given| == |ops|
    decreases |ops|
  {
    if ops == [] then []
    else
      StepRefines(w, ops[0]);
      [Given(w, ops[0])] + RunGiven(Step(w, ops[0]), ops[1..])
  }

  function PlainRun(w: seq<Plain>, ops: seq<Op>): seq<Plain>
    decreases |ops|
  {
    if ops == [] then w else PlainRun(PlainStep(w, ops[0]), ops[1..])
  }

  /** After any run of reads, writes, direct writes, materializations, compactions,
      copies and subsets of any vectors, they read like plain ones given the same writes. */
  lemma {:induction false} RunRefines(w: seq<Vec>, ops: seq<Op>)
    requires AllOk(w) && OpsOk(ops)
    ensures SeenAll(Run(w, ops)) == PlainRun(SeenAll(w), ops)
    decreases |ops|
  {
    if ops != [] {
      StepRefines(w, ops[0]);
      RunRefines(Step(w, ops[0]), ops[1..]);
    }
  }

  /** Whatever ran before, every element read is the plain vector's. */
  lemma {:induction false} ReadsAgree(w: seq<Vec>, ops: seq<Op>, v: nat, i: nat, id: nat)
    requires AllOk(w) && OpsOk(ops) && v < |Run(w, ops)| && i < Run(w, ops)[v].Length()
    ensures v < |PlainRun(SeenAll(w), ops)| && i < |PlainRun(SeenAll(w), ops)[v].xs|
    ensures Elt(Run(w, ops)[v], i, id).1.value == PlainRun(SeenAll(w), ops)[v].xs[i]
  {
    RunRefines(w, ops);
    EltOk(Run(w, ops)[v], i, id);
  }

  /** A step that does not assign element i leaves its rooted object where it is. */
  lemma {:induction false} StepRoots(w: seq<Vec>, op: Op, v: nat, i: nat)
    requires AllOk(w) && op.Ok() && v < |w| && i < w[v].Length() && w[v].Held(i) != BLANK && !op.Assigns(v, i)
    ensures v < |Step(w, op)| && AllOk(Step(w, op)) && i < Step(w, op)[v].Length() && Step(w, op)[v].Held(i) == w[v].Held(i)
  {
    StepRefines(w, op);
    if op.v == v {
      match op
      case Read(_, k, id) => if k < w[v].Length() { EltOk(w[v], k, id); }
      case Write(_, k, x) => if k < w[v].Length() { SetEltOk(w[v], k, x); }
      case Direct(_, k, value) => if k < w[v].Length() { PourOk(w[v], k, value.Stored()); }
      case Expand(_, ids) => MaterializeOk(w[v], ids);
      case Compact(_) =>
      case Copy(_) =>
      case Select(_, _) =>
    }
  }

  /** Rooting: an object handed out for an element stays rooted through any run
      that does not assign that element, and is handed out again. */
  lemma {:induction false} RunRoots(w: seq<Vec>, ops: seq<Op>, v: nat, i: nat, id: nat)
    requires AllOk(w) && OpsOk(ops) && v < |w| && i < w[v].Length() && w[v].Held(i) != BLANK
    requires forall k :: 0 <= k < |ops| ==> !ops[k].Assigns(v, i)
    ensures v < |Run(w, ops)| && i < Run(w, ops)[v].Length()
    ensures Run(w, ops)[v].Held(i) == w[v].Held(i) == Elt(Run(w, ops)[v], i, id).1
    decreases |ops|
  {
    if ops == [] {
      EltOk(w[v], i, id);
    } else {
      StepRoots(w, ops[0], v, i);
      RunRoots(Step(w, ops[0]), ops[1..], v, i, id);
    }
  }

  /** Reading an element roots the object it returns, unless it is the blank
      string, and reading it again after any run that does not assign it returns
      the same object. */
  lemma {:induction false} ReadRoots(w: seq<Vec>, v: nat, i: nat, id: nat, ops: seq<Op>, again: nat)
    requires AllOk(w) && OpsOk(ops) && v < |w| && i < w[v].Length()
    requires forall k :: 0 <= k < |ops| ==> !ops[k].Assigns(v, i)
    requires Elt(w[v], i, id).1 != BLANK
    ensures AllOk(Step(w, Read(v, i, id)))
    ensures var t := Run(Step(w, Read(v, i, id)), ops);
            v < |t| && i < t[v].Length() && Elt(t[v], i, again).1 == Elt(w[v], i, id).1
  {
    StepRefines(w, Read(v, i, id));
    EltOk(w[v], i, id);
    RunRoots(Step(w, Read(v, i, id)), ops, v, i, again);
  }
}
