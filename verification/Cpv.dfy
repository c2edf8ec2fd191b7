/** The serialized charvec state: "CPV1" or "CPV2", an endian flag, then a body
    [u64 n][u32 size x n][u8 tag x n][bytes]. The body has the shape of a narrow
    charpack buffer with sizes where that has end offsets. */
module Cpv {
  import opened Records
  import opened Words
  import opened Seqs
  import opened PackLayout
  import opened PackRecords

  const PREFIX := 5

  datatype Version = Cpv1 | Cpv2

  function Flag(o: Order): byte {
    if o.Little? then 1 else 2
  }

  function Prefix(v: Version, o: Order): (s: seq<byte>)
    ensures |s| == PREFIX
  {
    [0x43, 0x50, 0x56, if v.Cpv1? then 0x31 else 0x32, Flag(o)]
  }

  function Sizes(recs: seq<Rec>): seq<nat> {
    seq(|recs|, i requires 0 <= i < |recs| => |recs[i].Bytes()|)
  }

  /** What the body of a state of recs says. */
  function BodyFields(recs: seq<Rec>): Fields {
    Fields(false, Sizes(recs), Tags(recs), Payload(recs))
  }

  /** The state of recs, as the format lays it out. */
  function CpvImage(v: Version, o: Order, recs: seq<Rec>): seq<byte> {
    Prefix(v, o) + Frame(BodyFields(recs), o)
  }

  /** What a Store can hold: short enough records, none tagged NA but NA. */
  ghost predicate Storable(recs: seq<Rec>) {
    |recs| < WIDE_BIT && forall i :: 0 <= i < |recs| ==> recs[i].Str? ==> |recs[i].bytes| <= STRING_MAX && recs[i].tag != NA_TAG
  }

  /** s says recs, and nothing else. WritesCpvImage shows that it is then their layout. */
  ghost predicate WritesCpv(s: seq<byte>, v: Version, o: Order, recs: seq<Rec>) {
    && Storable(recs)
    && PREFIX <= |s| && s[..PREFIX] == Prefix(v, o) && Says(s[PREFIX..], o, BodyFields(recs))
  }

  /** s is a state of recs, all of which have known tags. */
  ghost predicate HoldsCpv(s: seq<byte>, v: Version, o: Order, recs: seq<Rec>) {
    AllValid(recs) && WritesCpv(s, v, o, recs)
  }

  /** s is a state of some list of valid records. */
  ghost predicate ValidCpv(s: seq<byte>) {
    exists v, o, recs :: HoldsCpv(s, v, o, recs)
  }

  lemma {:induction false} ValidStorable(recs: seq<Rec>)
    requires AllValid(recs) && |recs| < WIDE_BIT
    ensures Storable(recs)
  {
    forall i | 0 <= i < |recs| && recs[i].Str?
      ensures |recs[i].bytes| <= STRING_MAX && recs[i].tag != NA_TAG
    {
      assert recs[i].Valid();
    }
  }

  lemma {:induction false} BodyFieldsOk(recs: seq<Rec>)
    requires Storable(recs)
    ensures BodyFields(recs).Ok()
  {
  }

  /** A buffer says recs exactly when it is, byte for byte, their layout. */
  lemma {:induction false} WritesCpvImage(s: seq<byte>, v: Version, o: Order, recs: seq<Rec>)
    requires Storable(recs)
    ensures WritesCpv(s, v, o, recs) <==> s == CpvImage(v, o, recs)
  {
    var f := BodyFields(recs);
    BodyFieldsOk(recs);
    if s == CpvImage(v, o, recs) {
      AtBack(Prefix(v, o), Frame(f, o));
      FieldsOfFrame(f, o, s[PREFIX..]);
      SaysFields(s[PREFIX..], o, f);
    }
    if WritesCpv(s, v, o, recs) {
      SaysFields(s[PREFIX..], o, f);
      FrameOfFields(s[PREFIX..], o);
      assert s == s[..PREFIX] + s[PREFIX..];
    }
  }

  // Sizes and end offsets.

  /** The payload taken by the first k sizes. */
  function Used(f: Fields, k: nat): nat
    requires k <= |f.ends|
  {
    if k == 0 then 0 else Used(f, k - 1) + f.ends[k - 1]
  }

  /** The same fields with end offsets in place of sizes. */
  function Ended(f: Fields): (g: Fields)
    requires |f.ends| == |f.tags|
    ensures |g.ends| == |g.tags| == |f.ends|
  {
    Fields(true, seq(|f.ends|, i requires 0 <= i < |f.ends| => Used(f, i + 1)), f.tags, f.bytes)
  }

  lemma {:induction false} EndedBegin(f: Fields, i: nat)
    requires i <= |f.ends| == |f.tags|
    ensures BeginOf(Ended(f), i) == Used(f, i)
  {
  }

  /** Record i passes the checks, given that those before it did. */
  predicate SoundSize(f: Fields, i: nat)
    requires i < |f.ends| == |f.tags|
  {
    && f.ends[i] <= STRING_MAX && ValidTag(f.tags[i]) && (f.tags[i] == NA_TAG ==> f.ends[i] == 0)
    && Used(f, i) + f.ends[i] <= |f.bytes|
  }

  lemma {:induction false} SoundSizeIff(f: Fields, i: nat)
    requires i < |f.ends| == |f.tags|
    ensures SoundSize(f, i) <==> Sound(Ended(f), i)
  {
    EndedBegin(f, i);
    EndedBegin(f, i + 1);
  }

  lemma {:induction false} UsedIsStart(recs: seq<Rec>, k: nat)
    requires k <= |recs|
    ensures Used(BodyFields(recs), k) == Start(recs, k)
  {
    if k > 0 {
      UsedIsStart(recs, k - 1);
    }
  }

  /** The end offsets of recs are the sums of their sizes. */
  lemma {:induction false} EndedFields(recs: seq<Rec>)
    ensures Ended(BodyFields(recs)) == FieldsFor(recs, true)
  {
    forall i | 0 <= i < |recs|
      ensures Ended(BodyFields(recs)).ends[i] == Ends(recs)[i]
    {
      UsedIsStart(recs, i + 1);
    }
    assert Ended(BodyFields(recs)).ends == Ends(recs);
  }

  lemma {:induction false} EndedInjective(f: Fields, g: Fields)
    requires |f.ends| == |f.tags| && |g.ends| == |g.tags| && !f.wide && !g.wide && Ended(f) == Ended(g)
    ensures f == g
  {
    assert |f.ends| == |Ended(f).ends| == |g.ends|;
    forall i | 0 <= i < |f.ends|
      ensures f.ends[i] == g.ends[i]
    {
      EndedBegin(f, i);
      EndedBegin(g, i);
      assert Ended(f).ends[i] == Ended(g).ends[i];
    }
    assert f.ends == g.ends;
  }

  /** The records a body says, when every record is sound and the sizes cover the payload. */
  lemma {:induction false} ExactBody(f: Fields) returns (recs: seq<Rec>)
    requires |f.ends| == |f.tags| && !f.wide && |f.bytes| < U64_LIMIT && |f.ends| < WIDE_BIT && Exact(Ended(f))
    ensures AllValid(recs) && f == BodyFields(recs)
  {
    var g := Ended(f);
    forall i | 0 <= i < |g.ends|
      ensures g.ends[i] < U64_LIMIT
    {
      assert Sound(g, i);
    }
    ExactIsImage(g);
    recs := Decoded(g, |g.ends|);
    EndedFields(recs);
    EndedInjective(f, BodyFields(recs));
  }

  lemma {:induction false} BodyExact(recs: seq<Rec>)
    requires AllValid(recs) && |recs| < WIDE_BIT && Total(recs) < U64_LIMIT
    ensures Exact(Ended(BodyFields(recs)))
  {
    EndedFields(recs);
    FieldsForExact(recs, true);
  }

  /** A state is the layout of at most one list of records, in one version and byte order. */
  lemma {:induction false} HoldsCpvUnique(s: seq<byte>, v: Version, o: Order, recs: seq<Rec>, v': Version, o': Order, recs': seq<Rec>)
    requires HoldsCpv(s, v, o, recs) && HoldsCpv(s, v', o', recs')
    ensures v == v' && o == o' && recs == recs'
  {
    var p, q := Prefix(v, o), Prefix(v', o');
    assert p[3] == q[3] && p[4] == q[4];
    SaysFields(s[PREFIX..], o, BodyFields(recs));
    SaysFields(s[PREFIX..], o, BodyFields(recs'));
    EndedFields(recs);
    EndedFields(recs');
    SameFieldsSameRecs(recs, recs');
  }

  lemma {:induction false} SameFieldsSameRecs(recs: seq<Rec>, recs': seq<Rec>)
    requires AllValid(recs) && AllValid(recs') && FieldsFor(recs, true) == FieldsFor(recs', true)
    ensures recs == recs'
  {
    assert |Ends(recs)| == |Ends(recs')|;
    forall i | 0 <= i < |recs|
      ensures recs[i] == recs'[i]
    {
      FieldsForRecord(recs, FieldsFor(recs, true), i);
      FieldsForRecord(recs', FieldsFor(recs', true), i);
    }
  }

  /** The state that a Store writes is one that is accepted exactly when every
      record's tag is a known one. */
  lemma {:induction false} AcceptedIffTagged(s: seq<byte>, v: Version, o: Order, recs: seq<Rec>)
    requires WritesCpv(s, v, o, recs)
    ensures ValidCpv(s) <==>
            forall i :: 0 <= i < |recs| && recs[i].Str? ==> ValidTag(recs[i].tag)
  {
    if forall i :: 0 <= i < |recs| && recs[i].Str? ==> ValidTag(recs[i].tag) {
      assert HoldsCpv(s, v, o, recs);
    }
    if v': Version, o': Order, recs': seq<Rec> :| HoldsCpv(s, v', o', recs') {
      assert Prefix(v, o)[4] == Prefix(v', o')[4];
      SaysFields(s[PREFIX..], o, BodyFields(recs));
      SaysFields(s[PREFIX..], o, BodyFields(recs'));
      forall i | 0 <= i < |recs| && recs[i].Str?
        ensures ValidTag(recs[i].tag)
      {
        assert BodyFields(recs).tags[i] == BodyFields(recs').tags[i];
        assert |recs'| == |recs| && recs'[i].Valid();
      }
    }
  }

  /** Such a state: one empty record with a tag that is none of the known ones is written, and refused. */
  lemma {:induction false} UnknownTagRefused(v: Version, o: Order)
    ensures WritesCpv(CpvImage(v, o, [Str([], 7)]), v, o, [Str([], 7)]) && !ValidCpv(CpvImage(v, o, [Str([], 7)]))
  {
    var recs := [Str([], 7)];
    WritesCpvImage(CpvImage(v, o, recs), v, o, recs);
    AcceptedIffTagged(CpvImage(v, o, recs), v, o, recs);
    assert recs[0].Str? && !ValidTag(recs[0].tag);
  }
}
