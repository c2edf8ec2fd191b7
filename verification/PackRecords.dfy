/** The records a charpack buffer holds, and exactly which buffers hold some. */
module PackRecords {
  import opened Records
  import opened Words
  import opened Seqs
  import opened PackLayout

  function Ends(recs: seq<Rec>): seq<nat> {
    seq(|recs|, i requires 0 <= i < |recs| => Start(recs, i + 1))
  }

  function FieldsFor(recs: seq<Rec>, wide: bool): Fields {
    Fields(wide, Ends(recs), Tags(recs), Payload(recs))
  }

  /** The record lists the layout can hold in the given width. */
  ghost predicate Packable(recs: seq<Rec>, wide: bool) {
    AllValid(recs) && |recs| < WIDE_BIT && Total(recs) < Limit(wide)
  }

  /** The layout of recs: the head, the end offsets, the tags and all the bytes end to end. */
  function Image(recs: seq<Rec>, wide: bool, o: Order): seq<byte> {
    Frame(FieldsFor(recs, wide), o)
  }

  /** s says recs, and nothing else. HoldsImage shows that s is then their layout. */
  ghost predicate Holds(s: seq<byte>, recs: seq<Rec>, wide: bool, o: Order) {
    Packable(recs, wide) && Says(s, o, FieldsFor(recs, wide))
  }

  /** s, read in order o, is the layout of some list of valid records. */
  ghost predicate ValidState(s: seq<byte>, o: Order) {
    exists recs, wide :: Holds(s, recs, wide, o)
  }

  /** Where record i begins: the previous end, or 0. */
  function BeginOf(f: Fields, i: nat): nat
    requires i <= |f.ends|
  {
    if i == 0 then 0 else f.ends[i - 1]
  }

  predicate Inside(f: Fields, i: nat)
    requires i < |f.ends|
  {
    BeginOf(f, i) <= f.ends[i] <= |f.bytes|
  }

  /** Record i as a reader sees it. */
  function RecordAt(f: Fields, i: nat): Rec
    requires i < |f.ends| == |f.tags| && Inside(f, i)
  {
    if f.tags[i] == NA_TAG then NA else Str(f.bytes[BeginOf(f, i)..f.ends[i]], f.tags[i])
  }

  /** Record i passes every check made on an untrusted state. */
  predicate Sound(f: Fields, i: nat)
    requires i < |f.ends| == |f.tags|
  {
    && Inside(f, i)
    && f.ends[i] - BeginOf(f, i) <= STRING_MAX
    && ValidTag(f.tags[i])
    && (f.tags[i] == NA_TAG ==> f.ends[i] == BeginOf(f, i))
  }

  ghost predicate SoundTo(f: Fields, k: nat)
    requires k <= |f.ends| == |f.tags|
  {
    forall i :: 0 <= i < k ==> Sound(f, i)
  }

  /** Every record is sound and the last one ends where the payload does. */
  ghost predicate Exact(f: Fields)
    requires |f.ends| == |f.tags|
  {
    SoundTo(f, |f.ends|) && BeginOf(f, |f.ends|) == |f.bytes|
  }

  lemma {:induction false} SoundRecord(f: Fields, i: nat)
    requires i < |f.ends| == |f.tags| && Sound(f, i)
    ensures RecordAt(f, i).Valid() && RecordAt(f, i).Tag() == f.tags[i]
    ensures RecordAt(f, i).Bytes() == f.bytes[BeginOf(f, i)..f.ends[i]]
  {
  }

  /** The first k records, all of them sound. */
  ghost function Decoded(f: Fields, k: nat): (recs: seq<Rec>)
    requires k <= |f.ends| == |f.tags| && SoundTo(f, k)
    ensures |recs| == k
  {
    if k == 0 then []
    else assert Sound(f, k - 1); Decoded(f, k - 1) + [RecordAt(f, k - 1)]
  }

  lemma {:induction false} DecodedPayload(f: Fields, k: nat)
    requires k <= |f.ends| == |f.tags| && SoundTo(f, k)
    ensures BeginOf(f, k) <= |f.bytes|
    ensures Payload(Decoded(f, k)) == f.bytes[..BeginOf(f, k)]
  {
    if k > 0 {
      assert Sound(f, k - 1);
      DecodedPayload(f, k - 1);
      SoundRecord(f, k - 1);
      PayloadStep(Decoded(f, k - 1), RecordAt(f, k - 1), f.bytes, BeginOf(f, k - 1), f.ends[k - 1]);
    }
  }

  lemma {:induction false} DecodedTotal(f: Fields, k: nat)
    requires k <= |f.ends| == |f.tags| && SoundTo(f, k)
    ensures Total(Decoded(f, k)) == BeginOf(f, k) <= |f.bytes|
  {
    DecodedPayload(f, k);
    PayloadLength(Decoded(f, k));
  }

  lemma {:induction false} DecodedRecord(f: Fields, k: nat, i: nat)
    requires i < k <= |f.ends| == |f.tags| && SoundTo(f, k)
    ensures Sound(f, i) && Decoded(f, k)[i] == RecordAt(f, i)
    ensures Decoded(f, k)[..i + 1] == Decoded(f, i + 1)
  {
    if i < k - 1 {
      DecodedRecord(f, k - 1, i);
    }
  }

  lemma {:induction false} DecodedEnd(f: Fields, k: nat, i: nat)
    requires i < k <= |f.ends| == |f.tags| && SoundTo(f, k)
    ensures Start(Decoded(f, k), i + 1) == f.ends[i]
  {
    DecodedRecord(f, k, i);
    StartOfPrefix(Decoded(f, k), i + 1, i + 1);
    DecodedTotal(f, i + 1);
  }

  lemma {:induction false} DecodedValid(f: Fields, k: nat)
    requires k <= |f.ends| == |f.tags| && SoundTo(f, k)
    ensures AllValid(Decoded(f, k))
  {
    forall i | 0 <= i < k
      ensures Decoded(f, k)[i].Valid()
    {
      DecodedRecord(f, k, i);
      SoundRecord(f, i);
    }
  }

  lemma {:induction false} DecodedEnds(f: Fields)
    requires |f.ends| == |f.tags| && SoundTo(f, |f.ends|)
    ensures Ends(Decoded(f, |f.ends|)) == f.ends
  {
    forall i | 0 <= i < |f.ends|
      ensures Ends(Decoded(f, |f.ends|))[i] == f.ends[i]
    {
      DecodedEnd(f, |f.ends|, i);
    }
  }

  lemma {:induction false} DecodedTags(f: Fields)
    requires |f.ends| == |f.tags| && SoundTo(f, |f.ends|)
    ensures Tags(Decoded(f, |f.ends|)) == f.tags
  {
    forall i | 0 <= i < |f.ends|
      ensures Tags(Decoded(f, |f.ends|))[i] == f.tags[i]
    {
      DecodedRecord(f, |f.ends|, i);
      SoundRecord(f, i);
    }
  }

  /** Exact fields are the fields of the records they decode to. */
  lemma {:induction false} ExactIsImage(f: Fields)
    requires f.Ok() && Exact(f)
    ensures Packable(Decoded(f, |f.ends|), f.wide)
    ensures FieldsFor(Decoded(f, |f.ends|), f.wide) == f
  {
    var n := |f.ends|;
    DecodedTotal(f, n);
    DecodedPayload(f, n);
    DecodedValid(f, n);
    DecodedEnds(f);
    DecodedTags(f);
    assert f.bytes[..|f.bytes|] == f.bytes;
  }

  lemma {:induction false} FieldsForOk(recs: seq<Rec>, wide: bool)
    requires Packable(recs, wide)
    ensures FieldsFor(recs, wide).Ok()
  {
    forall i | 0 <= i < |recs|
      ensures Ends(recs)[i] < Limit(wide)
    {
      StartMonotone(recs, i + 1, |recs|);
    }
  }

  /** Record i of the fields of recs. */
  lemma {:induction false} FieldsForRecord(recs: seq<Rec>, f: Fields, i: nat)
    requires AllValid(recs) && i < |recs| && f == FieldsFor(recs, f.wide)
    ensures BeginOf(f, i) == Start(recs, i) && f.ends[i] == Start(recs, i + 1)
    ensures Sound(f, i) && RecordAt(f, i) == recs[i]
  {
    PayloadSpan(recs, i);
    var r := recs[i];
    assert r.Valid() && f.tags[i] == r.Tag();
    assert f.bytes[BeginOf(f, i)..f.ends[i]] == r.Bytes();
  }

  lemma {:induction false} FieldsForExact(recs: seq<Rec>, wide: bool)
    requires Packable(recs, wide)
    ensures Exact(FieldsFor(recs, wide))
  {
    forall i | 0 <= i < |recs|
      ensures Sound(FieldsFor(recs, wide), i)
    {
      FieldsForRecord(recs, FieldsFor(recs, wide), i);
    }
    PayloadLength(recs);
  }

  /** A buffer holds recs exactly when it is, byte for byte, their layout. */
  lemma {:induction false} HoldsImage(s: seq<byte>, recs: seq<Rec>, wide: bool, o: Order)
    requires Packable(recs, wide)
    ensures Holds(s, recs, wide, o) <==> s == Image(recs, wide, o)
  {
    FieldsForOk(recs, wide);
    SaysFields(s, o, FieldsFor(recs, wide));
    if s == Image(recs, wide, o) {
      FieldsOfFrame(FieldsFor(recs, wide), o, s);
    }
    if Holds(s, recs, wide, o) {
      FrameOfFields(s, o);
    }
  }

  /** What a buffer that holds recs says. */
  lemma {:induction false} HoldsFields(s: seq<byte>, recs: seq<Rec>, wide: bool, o: Order)
    requires Holds(s, recs, wide, o)
    ensures HeadFits(s, o) && CountOf(s, o) == |recs| && WideOf(s, o) == wide
    ensures s[TagsStart(|recs|, wide)..BytesStart(|recs|, wide)] == Tags(recs)
    ensures s[BytesStart(|recs|, wide)..] == Payload(recs)
    ensures |s| == BytesStart(|recs|, wide) + Total(recs)
  {
    PayloadLength(recs);
  }

  /** A buffer is the layout of at most one list of records, in one width. */
  lemma {:induction false} HoldsUnique(s: seq<byte>, recs: seq<Rec>, wide: bool, recs': seq<Rec>, wide': bool, o: Order)
    requires Holds(s, recs, wide, o) && Holds(s, recs', wide', o)
    ensures recs == recs' && wide == wide'
  {
    SaysFields(s, o, FieldsFor(recs, wide));
    SaysFields(s, o, FieldsFor(recs', wide'));
    forall i | 0 <= i < |recs|
      ensures recs[i] == recs'[i]
    {
      FieldsForRecord(recs, FieldsFor(recs, wide), i);
      FieldsForRecord(recs', FieldsFor(recs', wide'), i);
    }
  }

  /** The states are exactly the buffers whose head fits and whose fields are exact. */
  lemma {:induction false} ValidStateIff(s: seq<byte>, o: Order)
    ensures ValidState(s, o) <==> HeadFits(s, o) && Exact(FieldsOf(s, o))
  {
    if ValidState(s, o) {
      var recs, wide :| Holds(s, recs, wide, o);
      SaysFields(s, o, FieldsFor(recs, wide));
      FieldsForExact(recs, wide);
    }
    if HeadFits(s, o) && Exact(FieldsOf(s, o)) {
      var f := FieldsOf(s, o);
      FrameOfFields(s, o);
      ExactIsImage(f);
      SaysFields(s, o, f);
      assert Holds(s, Decoded(f, |f.ends|), f.wide, o);
    }
  }

  lemma {:induction false} ImageHead(recs: seq<Rec>, wide: bool, o: Order, image: seq<byte>)
    requires image == Image(recs, wide, o)
    ensures HEADER <= |image| && image[..HEADER] == Word(Head(|recs|, wide), HEADER, o)
  {
    FrameRegions(FieldsFor(recs, wide), o, image);
  }

  /** Where a reader finds record i's end offset and tag. */
  lemma {:induction false} EndInPlace(s: seq<byte>, recs: seq<Rec>, wide: bool, o: Order, i: nat)
    requires Holds(s, recs, wide, o) && i < |recs|
    ensures BytesStart(|recs|, wide) <= |s|
    ensures EndAt(s, wide, i, o) == Start(recs, i + 1)
    ensures s[TagsStart(|recs|, wide) + i] == recs[i].Tag()
  {
    var f := FieldsFor(recs, wide);
    assert Here(i) && f.ends[i] == Start(recs, i + 1);
    assert s[TagsStart(|recs|, wide)..BytesStart(|recs|, wide)][i] == f.tags[i] == recs[i].Tag();
  }

  /** The end offset of record i as it is laid out. */
  lemma {:induction false} ImageWord(recs: seq<Rec>, wide: bool, o: Order, image: seq<byte>, i: nat)
    requires Holds(image, recs, wide, o) && i < |recs|
    ensures BytesStart(|recs|, wide) <= |image|
    ensures image[HEADER + At(wide, i)..HEADER + At(wide, i + 1)] == Word(Start(recs, i + 1), Width(wide), o)
  {
    EndInPlace(image, recs, wide, o, i);
    EndWord(image, wide, i, o);
  }

  /** The bytes of record i, where the layout puts them. */
  lemma {:induction false} ImageSpan(recs: seq<Rec>, wide: bool, o: Order, image: seq<byte>, i: nat)
    requires Holds(image, recs, wide, o) && i < |recs|
    ensures Start(recs, i) <= Start(recs, i + 1) <= Total(recs)
    ensures |image| == BytesStart(|recs|, wide) + Total(recs)
    ensures image[BytesStart(|recs|, wide) + Start(recs, i)..BytesStart(|recs|, wide) + Start(recs, i + 1)]
         == recs[i].Bytes()
  {
    HoldsFields(image, recs, wide, o);
    SpanOf(recs, image, BytesStart(|recs|, wide), i);
  }

  lemma {:induction false} SpanOf(recs: seq<Rec>, image: seq<byte>, m: nat, i: nat)
    requires m <= |image| && image[m..] == Payload(recs) && i < |recs|
    ensures Start(recs, i) <= Start(recs, i + 1) <= Total(recs) == |image| - m
    ensures image[m + Start(recs, i)..m + Start(recs, i + 1)] == recs[i].Bytes()
  {
    PayloadSpan(recs, i);
    Nested(image, m, |image|, Start(recs, i), Start(recs, i + 1));
  }

  /** Record r is at i, from begin to end of the payload. */
  ghost predicate RecordIn(s: seq<byte>, n: nat, wide: bool, o: Order, i: nat, begin: nat, end: nat, r: Rec)
    requires i < n
  {
    && BytesStart(n, wide) <= |s| && begin <= end <= |s| - BytesStart(n, wide)
    && (if i == 0 then begin == 0 else EndAt(s, wide, i - 1, o) == begin)
    && EndAt(s, wide, i, o) == end
    && s[TagsStart(n, wide) + i] == r.Tag()
    && s[BytesStart(n, wide) + begin..BytesStart(n, wide) + end] == r.Bytes()
    && (r.Tag() == NA_TAG <==> r.NA?)
  }

  lemma {:induction false} BeginInPlace(s: seq<byte>, recs: seq<Rec>, wide: bool, o: Order, i: nat)
    requires Holds(s, recs, wide, o) && i < |recs|
    ensures BytesStart(|recs|, wide) <= |s|
    ensures if i == 0 then Start(recs, i) == 0 else EndAt(s, wide, i - 1, o) == Start(recs, i)
  {
    HoldsFields(s, recs, wide, o);
    if i > 0 {
      EndInPlace(s, recs, wide, o, i - 1);
    }
  }

  lemma {:induction false} HoldsRecord(s: seq<byte>, recs: seq<Rec>, wide: bool, o: Order, i: nat)
    requires Holds(s, recs, wide, o) && i < |recs|
    ensures RecordIn(s, |recs|, wide, o, i, Start(recs, i), Start(recs, i + 1), recs[i])
  {
    BeginInPlace(s, recs, wide, o, i);
    EndInPlace(s, recs, wide, o, i);
    ImageSpan(recs, wide, o, s, i);
    assert recs[i].Valid();
  }

  /** Every record of recs is in place. */
  ghost predicate RecordsIn(s: seq<byte>, recs: seq<Rec>, wide: bool, o: Order) {
    forall i {:trigger Here(i)} :: 0 <= i < |recs| && Here(i) ==>
      RecordIn(s, |recs|, wide, o, i, Start(recs, i), Start(recs, i + 1), recs[i])
  }

  lemma {:induction false} HoldsRecords(s: seq<byte>, recs: seq<Rec>, wide: bool, o: Order)
    requires Holds(s, recs, wide, o)
    ensures RecordsIn(s, recs, wide, o)
  {
    forall i | 0 <= i < |recs|
      ensures RecordIn(s, |recs|, wide, o, i, Start(recs, i), Start(recs, i + 1), recs[i])
    {
      HoldsRecord(s, recs, wide, o, i);
    }
  }
}
