/** The charpack object: unfilled, then filled with one immutable buffer, then
    materialized as R strings. */
module Charpack {
  import opened Records
  import opened RStrings
  import opened Words
  import opened PackLayout
  import opened PackRecords
  import opened PackState
  import opened PackFill
  import opened PackRead

  datatype Phase = Unfilled | Filled | Materialized {
    function Rank(): nat {
      match this
      case Unfilled => 0
      case Filled => 1
      case Materialized => 2
    }
  }

  /** What R's serializer is given for a charpack, or gives back: strings, an
      ordinary raw vector, or in a crafted stream an ALTREP one or another type. */
  datatype Stream = NoState | Strs(xs: array<RString>) | Raw(raw: array<byte>) | AltrepRaw | OtherType

  class Charpack {
    const host: Order
    var data1: array?<byte>
    var data2: array?<RString>
    /** What data1 holds. */
    ghost var recs: seq<Rec>
    ghost var wide: bool

    ghost predicate Valid()
      reads this, data1
    {
      data1 != null ==> data2 == null && data1.Length <= XLEN_MAX && Holds(data1[..], recs, wide, host)
    }

    function Phase(): Phase
      reads this
    {
      if data2 != null then Materialized else if data1 != null then Filled else Unfilled
    }

    /** The vector R sees. */
    ghost function Content(): seq<RString>
      reads this, data2
    {
      match Phase()
      case Unfilled => []
      case Filled => Elements(recs)
      case Materialized => data2[..]
    }

    constructor Placeholder(host: Order)
      ensures Valid() && Phase() == Unfilled && this.host == host
    {
      this.host := host;
      data1, data2 := null, null;
    }

    constructor Adopt(raw: array<byte>, host: Order, ghost recs: seq<Rec>, ghost wide: bool)
      requires raw.Length <= XLEN_MAX && Holds(raw[..], recs, wide, host)
      ensures Valid() && Phase() == Filled && data1 == raw
      ensures this.host == host && this.recs == recs && this.wide == wide
    {
      this.host := host;
      data1, data2 := raw, null;
      this.recs, this.wide := recs, wide;
    }

    /** An ordinary character vector: R reads and writes it as it does a materialized charpack. */
    constructor Ordinary(xs: array<RString>, host: Order)
      ensures Valid() && Phase() == Materialized && data2 == xs && this.host == host
    {
      this.host := host;
      data1, data2 := null, xs;
    }

    /** Fills a charpack with the records of the views: exactly when it is unfilled
        and the call is accepted. An error leaves it as it was. */
    method FillFromViews(c: ViewCall) returns (error: Option<FillError>)
      requires Valid() && c.Callable()
      modifies this
      ensures Valid()
      ensures error.None? <==> old(Phase()) == Unfilled && c.Accepted()
      ensures error.Some? ==> if old(Phase()) != Unfilled then error.value == NotUnfilled else c.Refused(error.value) && c.NamesFirst(error.value)
      ensures error.Some? ==> data1 == old(data1) && data2 == old(data2) && Content() == old(Content())
      ensures error.None? ==> Phase() == Filled && fresh(data1) && recs == c.Recs() && wide == c.Wide() && c.Lists(recs) && Content() == Elements(recs)
    {
      if data1 != null || data2 != null {
        return Some(NotUnfilled);
      }
      var made := FillViews(c, host);
      if made.Err? {
        return Some(made.error);
      }
      recs, wide := c.Recs(), c.Wide();
      data1 := made.value;
      return None;
    }

    /** Fills a charpack with the records cut from the slices: exactly when it is
        unfilled and the call is accepted. An error leaves it as it was. */
    method FillFromSlices(c: SliceCall) returns (error: Option<FillError>)
      requires Valid() && c.Callable()
      modifies this
      ensures Valid()
      ensures error.None? <==> old(Phase()) == Unfilled && c.Accepted()
      ensures error.Some? ==> if old(Phase()) != Unfilled then error.value == NotUnfilled else c.Refused(error.value) && c.NamesFirst(error.value)
      ensures error.Some? ==> data1 == old(data1) && data2 == old(data2) && Content() == old(Content())
      ensures error.None? ==> Phase() == Filled && fresh(data1) && recs == c.Recs() && wide == c.Wide() && c.Lists(recs) && Content() == Elements(recs)
    {
      if data1 != null || data2 != null {
        return Some(NotUnfilled);
      }
      var made := FillSlices(c, host);
      if made.Err? {
        return Some(made.error);
      }
      recs, wide := c.Recs(), c.Wide();
      data1 := made.value;
      return None;
    }

    /** Fills an unfilled charpack as n NA strings, already materialized. */
    method FillMaterializedNa(n: int) returns (error: Option<FillError>)
      requires Valid()
      modifies this
      ensures Valid()
      ensures error.None? <==> old(Phase()) == Unfilled && n >= 0
      ensures error.Some? ==> error.value == if old(Phase()) != Unfilled then NotUnfilled else NegativeCount
      ensures error.Some? ==> data1 == old(data1) && data2 == old(data2) && Content() == old(Content())
      ensures error.None? ==> Phase() == Materialized && fresh(data2)
      ensures error.None? ==> Content() == seq(n, _ => NaString)
    {
      if data1 != null || data2 != null {
        return Some(NotUnfilled);
      }
      if n < 0 {
        return Some(NegativeCount);
      }
      data2 := new RString[n](_ => NaString);
      assert data2[..] == seq(n, _ => NaString);
      return None;
    }

    /** Converts to R strings, once. What R sees does not change. */
    method Materialize() returns (xs: array<RString>)
      requires Valid()
      modifies this
      ensures Valid() && Phase() == Materialized && data2 == xs && data1 == null
      ensures if old(data2) == null then fresh(xs) else xs == old(data2)
      ensures Content() == old(Content())
    {
      if data2 != null {
        xs := data2;
        return;
      }
      if data1 == null {
        xs := new RString[0];
      } else {
        xs := Strings(data1, host, recs, wide);
      }
      data2 := xs;
      data1 := null;
    }

    method Length() returns (n: nat)
      requires Valid()
      ensures n == |Content()|
    {
      if data2 != null {
        n := data2.Length;
      } else if data1 == null {
        n := 0;
      } else {
        var w;
        n, w := ReadCount(data1, host, recs, wide);
      }
    }

    method Elt(i: nat) returns (x: RString)
      requires Valid() && i < |Content()|
      modifies this
      ensures Valid() && Phase() == Materialized && Content() == old(Content())
      ensures if old(data2) == null then fresh(data2) else data2 == old(data2)
      ensures x == Content()[i]
    {
      var xs := Materialize();
      x := xs[i];
    }

    method SetElt(i: nat, x: RString)
      requires Valid() && i < |Content()|
      modifies this, data2
      ensures Valid() && Phase() == Materialized
      ensures if old(data2) == null then fresh(data2) else data2 == old(data2)
      ensures Content() == old(Content())[i := x]
    {
      var xs := Materialize();
      xs[i] := x;
    }

    /** A copy: a charpack that shares the buffer of a filled one, else an ordinary vector. */
    method Duplicate() returns (shared: Charpack?, plain: array?<RString>)
      requires Valid()
      ensures (shared == null) == (plain != null) == (Phase() != Filled)
      ensures shared != null ==>
                fresh(shared) && shared.Valid() && shared.Phase() == Filled && shared.data1 == data1
                && shared.host == host && shared.Content() == Content()
      ensures plain != null ==> fresh(plain) && plain[..] == Content()
    {
      shared, plain := null, null;
      if data2 != null {
        var n := data2.Length;
        plain := new RString[n](i requires 0 <= i < n reads this, data2 => if data2 != null && i < data2.Length then data2[i] else NaString);
      } else if data1 == null {
        plain := new RString[0];
      } else {
        shared := new Charpack.Adopt(data1, host, recs, wide);
      }
    }

    /** What is serialized: the buffer in little-endian order, or strings when its
        native records are not UTF-8. The charpack itself does not change. */
    method SerializedState(loc: Locale) returns (state: Stream)
      requires Valid()
      ensures Phase() == Unfilled ==> state == NoState
      ensures Phase() == Materialized ==> state == Strs(data2)
      ensures Phase() == Filled && HasNative(recs) && !loc.utf8 ==>
                state.Strs? && fresh(state.xs) && state.xs[..] == Content()
      ensures Phase() == Filled && !(HasNative(recs) && !loc.utf8) ==>
                state.Raw? && Holds(state.raw[..], recs, wide, Little)
      ensures state.Raw? ==> if host == Little then state.raw == data1 else fresh(state.raw)
    {
      if data2 != null {
        return Strs(data2);
      }
      if data1 == null {
        return NoState;
      }
      var native := HasNativeTag(data1, host, recs, wide);
      if native && !loc.utf8 {
        var xs := Strings(data1, host, recs, wide);
        return Strs(xs);
      }
      if host == Little {
        return Raw(data1);
      }
      var raw := CopyOf(data1);
      SwappedImage(raw[..], recs, wide, host);
      SwapWords(raw, host, true);
      return Raw(raw);
    }
  }

  method CopyOf(src: array<byte>) returns (copy: array<byte>)
    ensures fresh(copy) && copy[..] == src[..]
  {
    copy := new byte[src.Length];
    forall k | 0 <= k < src.Length {
      copy[k] := src[k];
    }
  }

  /** Whether any record is tagged native: a search of the tags. */
  method HasNativeTag(raw: array<byte>, host: Order, ghost recs: seq<Rec>, ghost wide: bool) returns (found: bool)
    requires Holds(raw[..], recs, wide, host)
    ensures found == HasNative(recs)
  {
    var n, w := ReadCount(raw, host, recs, wide);
    HoldsFields(raw[..], recs, wide, host);
    found := SearchTags(raw, TagsStart(n, w), n, Tags(recs));
    NativeInTags(recs);
  }

  lemma {:induction false} NativeInTags(recs: seq<Rec>)
    ensures NATIVE in Tags(recs) <==> HasNative(recs)
  {
    if i :| 0 <= i < |recs| && recs[i].Tag() == NATIVE {
      assert Tags(recs)[i] == NATIVE;
    }
  }

  /** memchr for the native tag. */
  method SearchTags(raw: array<byte>, start: nat, n: nat, ghost tags: seq<byte>) returns (found: bool)
    requires start + n <= raw.Length && raw[..][start..start + n] == tags
    ensures found <==> NATIVE in tags
  {
    var i := 0;
    while i < n
      invariant i <= n && NATIVE !in tags[..i]
    {
      assert raw[start + i] == raw[..][start..start + n][i];
      if raw[start + i] == NATIVE {
        return true;
      }
      i := i + 1;
    }
    assert tags[..n] == tags;
    found := false;
  }

  datatype Rejection = WrongType | NotOrdinary | BadState(error: StateError)

  datatype Unserialized = Packed(x: Charpack) | Plain(xs: array<RString>) | Rejected(why: Rejection)

  lemma {:induction false} RelabelStart(recs: seq<Rec>, out: seq<Rec>, loc: Locale, k: nat)
    requires out == RelabelAll(recs, loc) && k <= |recs|
    ensures Start(out, k) == Start(recs, k)
  {
    if k > 0 {
      RelabelStart(recs, out, loc, k - 1);
    }
  }

  lemma {:induction false} RelabelPayload(recs: seq<Rec>, out: seq<Rec>, loc: Locale)
    requires out == RelabelAll(recs, loc)
    ensures Payload(out) == Payload(recs)
  {
    forall i | 0 <= i < |recs|
      ensures out[i].Bytes() == recs[i].Bytes()
    {
    }
    SamePayload(recs, out);
  }

  lemma {:induction false} RelabelPackable(recs: seq<Rec>, wide: bool, loc: Locale)
    requires Packable(recs, wide)
    ensures Packable(RelabelAll(recs, loc), wide)
  {
    var out := RelabelAll(recs, loc);
    forall i | 0 <= i < |recs|
      ensures out[i].Valid()
    {
      assert recs[i].Valid();
    }
    RelabelStart(recs, out, loc, |recs|);
  }

  lemma {:induction false} RelabelFields(recs: seq<Rec>, wide: bool, loc: Locale)
    ensures FieldsFor(RelabelAll(recs, loc), wide)
         == Fields(wide, Ends(recs), Tags(RelabelAll(recs, loc)), Payload(recs))
  {
    var out := RelabelAll(recs, loc);
    RelabelPayload(recs, out, loc);
    forall i | 0 <= i < |recs|
      ensures Ends(out)[i] == Ends(recs)[i]
    {
      RelabelStart(recs, out, loc, i + 1);
    }
    assert Ends(out) == Ends(recs);
  }

  lemma {:induction false} SameSpan(s: seq<byte>, t: seq<byte>, k: nat, lo: nat, hi: nat)
    requires lo <= hi <= k <= |s| == |t| && s[..k] == t[..k]
    ensures s[lo..hi] == t[lo..hi]
  {
    assert s[lo..hi] == s[..k][lo..hi];
    assert t[lo..hi] == t[..k][lo..hi];
  }

  /** A buffer that differs from one that says f only in its tags. */
  lemma {:induction false} SaysRetagged(s: seq<byte>, t: seq<byte>, o: Order, f: Fields, tags: seq<byte>)
    requires Says(s, o, f) && |t| == |s| && |tags| == |f.tags|
    requires var k, m := TagsStart(|f.ends|, f.wide), BytesStart(|f.ends|, f.wide);
             t[..k] == s[..k] && t[k..m] == tags && t[m..] == s[m..]
    ensures Says(t, o, Fields(f.wide, f.ends, tags, f.bytes))
  {
    var k := TagsStart(|f.ends|, f.wide);
    SameSpan(s, t, k, 0, HEADER);
    assert s[..HEADER] == s[0..HEADER] && t[..HEADER] == t[0..HEADER];
    forall i {:trigger Here(i)} | 0 <= i < |f.ends| && Here(i)
      ensures EndAt(t, f.wide, i, o) == f.ends[i]
    {
      SameSpan(s, t, k, HEADER + At(f.wide, i), HEADER + At(f.wide, i + 1));
    }
  }

  /** Marks native records UTF-8, in place, as a packed state's native records are. */
  method RelabelNative(raw: array<byte>, host: Order, loc: Locale, ghost recs: seq<Rec>, ghost wide: bool)
    requires Holds(raw[..], recs, wide, host) && !loc.utf8
    modifies raw
    ensures Holds(raw[..], RelabelAll(recs, loc), wide, host)
  {
    ghost var s := raw[..];
    HoldsFields(s, recs, wide, host);
    var n, w := ReadCount(raw, host, recs, wide);
    var k := TagsStart(n, w);
    RelabelTags(raw, k, n, s, recs, loc);
    RelabelPackable(recs, wide, loc);
    RelabelFields(recs, wide, loc);
    SaysRetagged(s, raw[..], host, FieldsFor(recs, wide), Tags(RelabelAll(recs, loc)));
  }

  method RelabelTags(raw: array<byte>, k: nat, n: nat, ghost s: seq<byte>, ghost recs: seq<Rec>, loc: Locale)
    requires raw[..] == s && k + n <= |s| && n == |recs| && s[k..k + n] == Tags(recs) && !loc.utf8
    modifies raw
    ensures raw[..][..k] == s[..k] && raw[..][k + n..] == s[k + n..]
    ensures raw[..][k..k + n] == Tags(RelabelAll(recs, loc))
  {
    ghost var out := RelabelAll(recs, loc);
    var i := 0;
    while i < n
      invariant i <= n
      invariant forall j :: 0 <= j < raw.Length && !(k <= j < k + i) ==> raw[j] == s[j]
      invariant forall j :: 0 <= j < i ==> raw[k + j] == out[j].Tag()
    {
      assert raw[k + i] == s[k + i] == s[k..k + n][i] == recs[i].Tag();
      if raw[k + i] == NATIVE {
        raw[k + i] := UTF8;
      }
      i := i + 1;
    }
  }

  /** A valid state becomes a charpack's buffer, in place: in the host's byte order,
      with native records marked UTF-8 outside a UTF-8 locale. */
  method AdoptState(raw: array<byte>, host: Order, loc: Locale, ghost recs: seq<Rec>, ghost wide: bool) returns (x: Charpack)
    requires raw.Length <= XLEN_MAX && Holds(raw[..], recs, wide, Little)
    modifies raw
    ensures fresh(x) && x.Valid() && x.Phase() == Filled && x.data1 == raw
    ensures x.recs == RelabelAll(recs, loc) && x.wide == wide && x.host == host
  {
    if host != Little {
      SwappedImage(raw[..], recs, wide, Little);
      SwapWords(raw, host, false);
    }
    var native := HasNativeTag(raw, host, recs, wide);
    if native && !loc.utf8 {
      RelabelNative(raw, host, loc, recs, wide);
    } else {
      assert RelabelAll(recs, loc) == recs;
    }
    x := new Charpack.Adopt(raw, host, RelabelAll(recs, loc), wide);
  }

  /** Reads a serialized state. Nothing else may hold a raw state: it becomes the
      buffer of the new charpack, converted in place. */
  method Unserialize(state: Stream, host: Order, loc: Locale) returns (r: Unserialized)
    requires state.Raw? ==> state.raw.Length <= XLEN_MAX
    modifies if state.Raw? then {state.raw} else {}
    ensures state.Strs? ==> r == Plain(state.xs)
    ensures state.NoState? || state.OtherType? ==> r == Rejected(WrongType)
    ensures state.AltrepRaw? ==> r == Rejected(NotOrdinary)
    ensures state.Raw? ==>
              && (r.Packed? <==> ValidState(old(state.raw[..]), Little))
              && (r.Packed? || (r.Rejected? && r.why.BadState?))
              && (r.Rejected? ==> Verdict(old(state.raw[..]), Little, Some(r.why.error)) && state.raw[..] == old(state.raw[..]))
              && (r.Packed? ==> fresh(r.x) && r.x.Valid() && r.x.Phase() == Filled && r.x.data1 == state.raw)
    ensures state.Raw? && r.Packed? ==>
              forall recs, wide :: Holds(old(state.raw[..]), recs, wide, Little) ==>
                && r.x.recs == RelabelAll(recs, loc) && ReadAsUtf8(recs, r.x.recs, loc)
                && r.x.wide == wide && r.x.host == host
  {
    if state.Strs? {
      return Plain(state.xs);
    }
    if state.NoState? || state.OtherType? {
      return Rejected(WrongType);
    }
    if state.AltrepRaw? {
      return Rejected(NotOrdinary);
    }
    var raw := state.raw;
    ghost var s := raw[..];
    var swap := host != Little;
    assert Reading(host, swap) == Little;
    var error := FindStateError(raw, host, swap);
    if error.Some? {
      return Rejected(BadState(error.value));
    }
    ghost var recs, wide :| Holds(s, recs, wide, Little);
    forall recs', wide' | Holds(s, recs', wide', Little)
      ensures recs' == recs && wide' == wide
    {
      HoldsUnique(s, recs, wide, recs', wide', Little);
    }
    RelabelReads(recs, loc);
    var x := AdoptState(raw, host, loc, recs, wide);
    return Packed(x);
  }

  /** Reading the state of recs. */
  method UnserializeHeld(raw: array<byte>, host: Order, loc: Locale, ghost recs: seq<Rec>, ghost wide: bool) returns (r: Unserialized)
    requires raw.Length <= XLEN_MAX && Holds(raw[..], recs, wide, Little)
    modifies raw
    ensures r.Packed? && fresh(r.x) && r.x.Valid() && r.x.Phase() == Filled && r.x.data1 == raw
    ensures r.x.recs == RelabelAll(recs, loc) && r.x.wide == wide && r.x.host == host
  {
    assert ValidState(raw[..], Little);
    r := Unserialize(Raw(raw), host, loc);
  }

  /** A charpack written under one host and locale and read under another. A filled
      one comes back with its records and width, or as strings when some are native
      outside a UTF-8 locale. Any other comes back as the strings it showed. */
  method SaveAndRestore(x: Charpack, from: Locale, readerHost: Order, to: Locale) returns (r: Unserialized)
    requires x.Valid()
    ensures x.Valid() && x.Phase() == old(x.Phase()) && x.Content() == old(x.Content())
    ensures x.Phase() != Filled || (HasNative(x.recs) && !from.utf8) ==> r.Plain? && r.xs[..] == x.Content()
    ensures x.Phase() == Filled && !(HasNative(x.recs) && !from.utf8) ==>
              && r.Packed? && r.x.Valid() && r.x.Phase() == Filled && r.x.wide == x.wide && r.x.host == readerHost
              && ComeBack(r.x.recs, x.recs, from, to)
  {
    ghost var recs, wide := x.recs, x.wide;
    var state := x.SerializedState(from);
    if state.NoState? {
      // R writes an empty character vector in its place.
      var none := new RString[0];
      r := Unserialize(Strs(none), readerHost, to);
    } else if state.Raw? {
      SameLength(x.data1[..], x.host, state.raw[..], Little, recs, wide);
      r := RestorePacked(state.raw, from, readerHost, to, recs, wide);
    } else {
      r := Unserialize(state, readerHost, to);
    }
  }

  /** The stream hands the reader its own copy of a packed state. */
  method RestorePacked(raw: array<byte>, from: Locale, readerHost: Order, to: Locale, ghost recs: seq<Rec>, ghost wide: bool)
    returns (r: Unserialized)
    requires Holds(raw[..], recs, wide, Little) && raw.Length <= XLEN_MAX && (HasNative(recs) ==> from.utf8)
    ensures r.Packed? && fresh(r.x) && r.x.Valid() && r.x.Phase() == Filled && r.x.wide == wide && r.x.host == readerHost
    ensures ComeBack(r.x.recs, recs, from, to)
  {
    RelabelledComeBack(recs, from, to);
    var copy := CopyOf(raw);
    r := UnserializeHeld(copy, readerHost, to, recs, wide);
  }

  /** Layouts of one list in one width have one size. */
  lemma {:induction false} SameLength(s: seq<byte>, o: Order, t: seq<byte>, p: Order, recs: seq<Rec>, wide: bool)
    requires Holds(s, recs, wide, o) && Holds(t, recs, wide, p)
    ensures |s| == |t|
  {
    HoldsFields(s, recs, wide, o);
    HoldsFields(t, recs, wide, p);
  }
}
