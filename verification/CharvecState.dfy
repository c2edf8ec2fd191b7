/** What R's serializer is given for a charvec, and what it makes of it. */
module CharvecState {
  import opened Records
  import opened RStrings
  import opened Words
  import opened PackLayout
  import PackState
  import opened Stores
  import opened EltCache
  import opened Charvecs
  import opened Cpv
  import opened CpvParse
  import opened CpvState

  datatype CvStream = CvStrings(xs: array<Obj>) | CvRaw(raw: array<byte>) | CvOther

  datatype Restored = Strings(xs: array<Obj>) | Vector(x: Charvec) | Refused(why: CpvError)

  /** The contents of an array of strings. */
  ghost function ValuesOf(xs: seq<Obj>): (values: seq<RString>)
    ensures |values| == |xs|
  {
    seq(|xs|, i requires 0 <= i < |xs| => xs[i].value)
  }

  /** Whether any record is tagged native. */
  method HasNativeRow(rows: seq<Row>, ghost recs: seq<Rec>) returns (found: bool)
    requires |rows| == |recs| && forall i :: 0 <= i < |rows| ==> recs[i].Tag() == rows[i].enc
    ensures found == HasNative(recs)
  {
    var i := 0;
    while i < |rows|
      invariant i <= |rows| && forall j :: 0 <= j < i ==> recs[j].Tag() != NATIVE
    {
      if rows[i].enc == NATIVE {
        assert recs[i].Tag() == NATIVE;
        return true;
      }
      i := i + 1;
    }
    found := false;
  }

  /** The packed state would be larger than R allows. */
  ghost predicate TooLarge(recs: seq<Rec>) {
    PREFIX + BytesStart(|recs|, false) + Total(recs) > XLEN_MAX
  }

  /** What is serialized: the packed records, or strings when native records are
      not UTF-8 or the vector is materialized. It fails exactly when the records
      are to be packed and no raw vector holds them. */
  method SerializedState(x: Charvec, host: Order, loc: Locale, ids: nat -> nat) returns (state: Option<CvStream>)
    requires x.Valid()
    ensures x.data2 != null ==> state == Some(CvStrings(x.data2))
    ensures x.data2 == null && HasNative(old(x.Model()).recs) && !loc.utf8 ==>
              && state.Some? && state.value.CvStrings? && fresh(state.value.xs)
              && ValuesOf(state.value.xs[..]) == old(x.Model()).Content()
    ensures x.data2 == null && !(HasNative(old(x.Model()).recs) && !loc.utf8) ==>
              if TooLarge(old(x.Model()).recs) then state == None
              else
                && state.Some? && state.value.CvRaw? && fresh(state.value.raw) && state.value.raw.Length <= XLEN_MAX
                && state.value.raw[..] == CpvImage(Cpv2, Little, old(x.Model()).recs)
  {
    if x.data2 != null {
      return Some(CvStrings(x.data2));
    }
    var rows := x.store.records.rows;
    ghost var recs, blocks := RecsOf(rows), Owned(x.store.slices.nodes);
    forall i | 0 <= i < |rows|
      ensures recs[i].Tag() == rows[i].enc
    {
      EntryRecord(rows, blocks, i);
    }
    var native := HasNativeRow(rows, recs);
    assert x.store.Valid() && RecsOf(rows) == recs;
    if native && !loc.utf8 {
      var xs := CopyAll(rows, None, ids, Vec(recs, None, None));
      assert ValuesOf(xs[..]) == Elements(recs);
      return Some(CvStrings(xs));
    }
    var raw := WriteState(x.store, host);
    state := if raw.None? then None else Some(CvRaw(raw.value));
  }

  /** Reads a serialized state. A packed one is accepted exactly when it is the
      state of some list of valid records. */
  method Unserialize(state: CvStream, host: Order, loc: Locale) returns (r: Restored)
    requires state.CvRaw? ==> state.raw.Length <= XLEN_MAX
    ensures state.CvStrings? ==> r == Strings(state.xs)
    ensures state.CvOther? ==> r == Refused(WrongType)
    ensures state.CvRaw? ==> !r.Strings? && (r.Vector? <==> ValidCpv(old(state.raw[..])))
    ensures r.Vector? ==> fresh(r.x) && r.x.Valid()
    ensures r.Vector? ==>
              forall v, o, recs :: HoldsCpv(old(state.raw[..]), v, o, recs) ==>
                r.x.Model() == Vec(Loaded(v, recs, loc), None, None) && ReadBack(v, recs, r.x.Model().recs, loc)
  {
    if state.CvStrings? {
      return Strings(state.xs);
    }
    if state.CvOther? {
      return Refused(WrongType);
    }
    var raw := state.raw;
    ghost var s := raw[..];
    var parsed;
    ghost var recs;
    parsed, recs := Parse(raw, host);
    if parsed.Err? {
      return Refused(parsed.error);
    }
    var made := UnserializeStore(raw, parsed.value, host, loc, recs);
    var x := new Charvec(made);
    forall v, o, recs' | HoldsCpv(s, v, o, recs')
      ensures v == parsed.value.version && recs' == recs
    {
      HoldsCpvUnique(s, v, o, recs', parsed.value.version, PackState.Reading(host, parsed.value.swap), recs);
    }
    r := Vector(x);
  }

  method UnserializeHeld(raw: array<byte>, v: Version, o: Order, host: Order, loc: Locale, ghost recs: seq<Rec>)
    returns (r: Restored)
    requires raw.Length <= XLEN_MAX && HoldsCpv(raw[..], v, o, recs)
    ensures r.Vector? && fresh(r.x) && r.x.Valid() && r.x.Model() == Vec(Loaded(v, recs, loc), None, None)
  {
    assert ValidCpv(raw[..]);
    r := Unserialize(CvRaw(raw), host, loc);
  }

  lemma {:induction false} ImageHeld(s: seq<byte>, v: Version, o: Order, recs: seq<Rec>)
    requires AllValid(recs) && |recs| < WIDE_BIT && s == CpvImage(v, o, recs)
    ensures HoldsCpv(s, v, o, recs)
  {
    ValidStorable(recs);
    WritesCpvImage(s, v, o, recs);
  }

  /** Reading the layout of recs. */
  method UnserializeImage(raw: array<byte>, v: Version, o: Order, host: Order, loc: Locale, ghost recs: seq<Rec>)
    returns (r: Restored)
    requires AllValid(recs) && |recs| < WIDE_BIT && raw.Length <= XLEN_MAX && raw[..] == CpvImage(v, o, recs)
    ensures r.Vector? && fresh(r.x) && r.x.Valid() && r.x.Model() == Vec(Loaded(v, recs, loc), None, None)
  {
    ImageHeld(raw[..], v, o, recs);
    r := UnserializeHeld(raw, v, o, host, loc, recs);
  }

  /** A state written with either endian flag is accepted on any host and read as the same records. */
  method EitherFlag(little: array<byte>, big: array<byte>, v: Version, host: Order, loc: Locale, ghost recs: seq<Rec>)
    returns (one: Restored, two: Restored)
    requires AllValid(recs) && |recs| < WIDE_BIT && little.Length <= XLEN_MAX && big.Length <= XLEN_MAX
    requires little[..] == CpvImage(v, Little, recs) && big[..] == CpvImage(v, Big, recs)
    ensures one.Vector? && two.Vector? && one.x.Valid() && two.x.Valid()
    ensures one.x.Model() == Vec(Loaded(v, recs, loc), None, None) == two.x.Model()
  {
    one := UnserializeImage(little, v, Little, host, loc, recs);
    two := UnserializeBeside(one.x, big, v, Big, host, loc, recs);
  }

  /** Reading a state changes no charvec there is. */
  method UnserializeBeside(x: Charvec, raw: array<byte>, v: Version, o: Order, host: Order, loc: Locale, ghost recs: seq<Rec>)
    returns (r: Restored)
    requires x.Valid()
    requires AllValid(recs) && |recs| < WIDE_BIT && raw.Length <= XLEN_MAX && raw[..] == CpvImage(v, o, recs)
    ensures x.Valid() && x.Model() == old(x.Model())
    ensures r.Vector? && fresh(r.x) && r.x.Valid() && r.x.Model() == Vec(Loaded(v, recs, loc), None, None)
  {
    ghost var owned := x.Footprint();
    r := UnserializeImage(raw, v, o, host, loc, recs);
    Undisturbed(x, owned);
  }

  /** A charvec is saved as strings: it is materialized, or holds native records that are not UTF-8. */
  ghost predicate SavedAsStrings(x: Charvec, from: Locale)
    reads x, x.Footprint()
    requires x.Valid()
  {
    x.data2 != null || (HasNative(x.Model().recs) && !from.utf8)
  }

  /** The charvec holds the records, as they come back, and nothing else. */
  ghost predicate Restores(model: Vec, recs: seq<Rec>, from: Locale, to: Locale) {
    model == Vec(model.recs, None, None) && ComeBack(model.recs, recs, from, to)
  }

  /** A charvec written under one host and locale and read under another. Strings
      come back as they were. A packed state that a raw vector holds is accepted
      exactly when every record has a known tag, and then the records come back. */
  method SaveAndRestore(x: Charvec, writerHost: Order, from: Locale, readerHost: Order, to: Locale, ids: nat -> nat)
    returns (r: Option<Restored>)
    requires x.Valid()
    ensures x.data2 != null ==> r == Some(Strings(x.data2))
    ensures old(SavedAsStrings(x, from)) ==>
              r.Some? && r.value.Strings? && ValuesOf(r.value.xs[..]) == old(x.Model()).Content()
    ensures !old(SavedAsStrings(x, from)) ==>
              && (r.None? <==> TooLarge(old(x.Model()).recs))
              && (r.Some? ==> (r.value.Vector? <==> AllValid(old(x.Model()).recs)) && (r.value.Vector? || r.value.Refused?))
    ensures r.Some? && r.value.Vector? ==> r.value.x.Valid() && Restores(r.value.x.Model(), old(x.Model()).recs, from, to)
  {
    ghost var recs := x.Model().recs;
    ModelStorable(x);
    var state := SerializedState(x, writerHost, from, ids);
    if state.None? {
      return None;
    }
    var back;
    if state.value.CvRaw? {
      back := RestorePacked(state.value.raw, from, readerHost, to, recs);
    } else {
      back := Unserialize(state.value, readerHost, to);
    }
    r := Some(back);
  }

  lemma {:induction false} ModelStorable(x: Charvec)
    requires x.Valid()
    ensures x.data2 == null ==> Storable(x.Model().recs)
  {
    if x.data2 == null {
      TableStorable(x.store.records.rows, Owned(x.store.slices.nodes));
    }
  }

  /** Reading the packed state of what a Store holds. */
  method RestorePacked(raw: array<byte>, from: Locale, readerHost: Order, to: Locale, ghost recs: seq<Rec>) returns (r: Restored)
    requires Storable(recs) && raw[..] == CpvImage(Cpv2, Little, recs) && raw.Length <= XLEN_MAX
    requires HasNative(recs) ==> from.utf8
    ensures (r.Vector? <==> AllValid(recs)) && (r.Vector? || r.Refused?)
    ensures r.Vector? ==> fresh(r.x) && r.x.Valid() && Restores(r.x.Model(), recs, from, to)
  {
    WrittenState(raw[..], recs);
    r := Unserialize(CvRaw(raw), readerHost, to);
    if r.Vector? {
      RelabelledComeBack(recs, from, to);
    }
  }

  /** The state of what a Store holds is accepted exactly when that is valid. */
  lemma {:induction false} WrittenState(s: seq<byte>, recs: seq<Rec>)
    requires Storable(recs) && s == CpvImage(Cpv2, Little, recs)
    ensures |s| == PREFIX + BytesStart(|recs|, false) + Total(recs)
    ensures ValidCpv(s) <==> AllValid(recs)
    ensures AllValid(recs) ==> HoldsCpv(s, Cpv2, Little, recs)
  {
    WritesCpvImage(s, Cpv2, Little, recs);
    CountThere(s, Cpv2, Little, recs);
    KnownTags(recs);
    AcceptedIffTagged(s, Cpv2, Little, recs);
  }

  /** What a Store holds is valid exactly when its tags are known ones. */
  lemma {:induction false} KnownTags(recs: seq<Rec>)
    requires Storable(recs)
    ensures AllValid(recs) <==> forall i :: 0 <= i < |recs| && recs[i].Str? ==> ValidTag(recs[i].tag)
  {
    if AllValid(recs) {
      forall i | 0 <= i < |recs| && recs[i].Str?
        ensures ValidTag(recs[i].tag)
      {
        assert recs[i].Valid();
      }
    }
  }
}
