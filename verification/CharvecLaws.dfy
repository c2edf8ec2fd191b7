/** From R strings to a charvec, through any run, and through saving: what R gets back. */
module CharvecLaws {
  import opened Records
  import opened RStrings
  import opened Words
  import opened Stores
  import opened EltCache
  import opened CacheLaws
  import opened Charvecs
  import opened CharvecRuns
  import opened CharvecState
  import Construction

  /** A charvec of a character vector. */
  method FromStrings(xs: seq<RString>) returns (x: Charvec)
    requires |xs| <= MAX_CAPACITY && forall i :: 0 <= i < |xs| ==> xs[i].Proper()
    ensures fresh(x) && x.Valid() && x.Model() == Vec(Construction.FromStrings(xs), None, None)
    ensures x.Model().Ok() && x.Model().Content() == xs && Honest(x.Model().recs) && AllGenuine(x.Model())
  {
    StoredStrings(xs);
    var store := Construction.StoreFromChars(xs);
    x := new Charvec(store);
  }

  lemma {:induction false} StoredStrings(xs: seq<RString>)
    requires forall i :: 0 <= i < |xs| ==> xs[i].Proper()
    ensures var v := Vec(Construction.FromStrings(xs), None, None);
            v.Ok() && v.Content() == xs && Honest(v.recs) && AllGenuine(v)
  {
    var v := Vec(Construction.FromStrings(xs), None, None);
    forall i | 0 <= i < |xs|
      ensures v.recs[i].Valid() && !Mislabelled(v.recs[i]) && Element(v.recs[i]) == xs[i]
    {
      StringTag(xs[i]);
      ElementOfString(xs[i]);
    }
  }

  /** On the heap, too, every object held or handed out is genuine. */
  method RunGenuineOps(vs: seq<Charvec>, ops: seq<Op>, ghost own: set<object>)
    returns (ws: seq<Charvec>, given: seq<Option<Obj>>, ghost owned: set<object>)
    requires Sound(vs, own) && AllOk(Models(vs, own)) && OpsOk(ops)
    requires WorldGenuine(Models(vs, own)) && OpsGenuine(ops)
    modifies own
    ensures Sound(ws, owned) && WorldGenuine(Models(ws, owned))
    ensures |given| == |ops| && forall k :: 0 <= k < |given| && given[k].Some? ==> Genuine(given[k].value)
  {
    RunGenuine(Models(vs, own), ops);
    ws, given, owned := RunOps(vs, ops, own);
  }

  lemma {:induction false} HonestComeBack(recs: seq<Rec>, out: seq<Rec>, from: Locale, to: Locale)
    requires Honest(recs) && ComeBack(out, recs, from, to)
    ensures AllValid(recs) && SameTexts(Elements(out), to, Elements(recs), from)
  {
  }

  /** A vector of honest records, saved in one locale and restored in another: a
      state that can be written gives the strings, or a vector of the same texts. */
  method SaveHonest(x: Charvec, writerHost: Order, from: Locale, readerHost: Order, to: Locale, ids: nat -> nat)
    returns (r: Option<Restored>)
    requires x.Valid() && Honest(x.Model().recs)
    ensures r.None? ==> x.data2 == null && CharvecState.TooLarge(old(x.Model()).recs)
    ensures r.Some? ==>
              if r.value.Strings? then ValuesOf(r.value.xs[..]) == old(x.Model()).Content()
              else r.value.Vector? && r.value.x.Valid() && SameTexts(r.value.x.Model().Content(), to, old(x.Model()).Content(), from)
  {
    ghost var v := x.Model();
    ghost var asStrings := SavedAsStrings(x, from);
    r := SaveAndRestore(x, writerHost, from, readerHost, to, ids);
    if r.Some? && r.value.Vector? {
      HonestComeBack(v.recs, r.value.x.Model().recs, from, to);
    }
  }

  /** The whole law: vectors of R's strings, changed by any run of reads, string
      writes, materializations, compactions, copies and subsets, and saved between
      any two locales, come back as the strings of plain vectors given the same
      writes, or as a vector of the same texts. */
  method RunAndSave(vs: seq<Charvec>, ops: seq<Op>, v: nat, writerHost: Order, from: Locale, readerHost: Order, to: Locale,
                    ids: nat -> nat, ghost own: set<object>)
    returns (r: Option<Restored>)
    requires Sound(vs, own) && AllOk(Models(vs, own)) && OpsOk(ops) && WorldHonest(Models(vs, own)) && OpsHonest(ops)
    requires v < |Run(Models(vs, own), ops)|
    modifies own
    ensures v < |PlainRun(SeenAll(old(Models(vs, own))), ops)|
    ensures var xs := PlainRun(SeenAll(old(Models(vs, own))), ops)[v].xs;
            r.Some? ==>
              if r.value.Strings? then ValuesOf(r.value.xs[..]) == xs
              else r.value.Vector? && r.value.x.Valid() && SameTexts(r.value.x.Model().Content(), to, xs, from)
  {
    ghost var w := Models(vs, own);
    RunHonest(w, ops);
    RunRefines(w, ops);
    var ws, given;
    ghost var owned;
    ws, given, owned := RunOps(vs, ops, own);
    assert Models(ws, owned)[v] == ws[v].Model() == Run(w, ops)[v];
    r := SaveHonest(ws[v], writerHost, from, readerHost, to, ids);
  }
}
