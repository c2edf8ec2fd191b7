/** Both formats in numbers: every byte of a charpack buffer and of a serialized
    charvec, at its literal offset. */
module Formats {
  import opened Records
  import opened Words
  import opened PackLayout
  import opened PackRecords
  import opened Cpv
  import opened CpvState

  /** The number in the four bytes of s from at on, in a byte order. */
  ghost function Four(s: seq<byte>, at: nat, o: Order): nat
    requires at + 4 <= |s|
  {
    match o
    case Little => s[at] as int + 256 * s[at + 1] as int + 65536 * s[at + 2] as int + 16777216 * s[at + 3] as int
    case Big => s[at + 3] as int + 256 * s[at + 2] as int + 65536 * s[at + 1] as int + 16777216 * s[at] as int
  }

  ghost function Eight(s: seq<byte>, at: nat, o: Order): nat
    requires at + 8 <= |s|
  {
    match o
    case Little => Four(s, at, o) + 4294967296 * Four(s, at + 4, o)
    case Big => Four(s, at + 4, o) + 4294967296 * Four(s, at, o)
  }

  lemma {:induction false} FourIsValue(s: seq<byte>, at: nat, o: Order)
    requires at + 4 <= |s|
    ensures Value(s[at..at + 4], o) == Four(s, at, o)
  {
    if o.Little? {
      Value4(s[at..at + 4]);
    } else {
      BackwardValue4(s[at..at + 4]);
    }
  }

  lemma {:induction false} EightIsValue(s: seq<byte>, at: nat, o: Order)
    requires at + 8 <= |s|
    ensures Value(s[at..at + 8], o) == Eight(s, at, o)
  {
    if o.Little? {
      Value8(s[at..at + 8]);
    } else {
      BackwardValue8(s[at..at + 8]);
    }
  }

  /** Record i of n: its end offset, its tag and its bytes, where the payload starts at m. */
  ghost predicate PackedAt(s: seq<byte>, r: Rec, end: nat, tagAt: nat, begin: nat) {
    && tagAt < |s| && begin <= end <= |s|
    && match r
       case NA => s[tagAt] == 255 && begin == end
       case Str(bytes, tag) => s[tagAt] == tag && s[begin..end] == bytes
  }

  lemma {:induction false} HeadNumber(s: seq<byte>, o: Order)
    requires 8 <= |s|
    ensures HeadOf(s, o) == Eight(s, 0, o) < 0x1_0000_0000_0000_0000
    ensures Eight(s, 0, o) == CountOf(s, o) + if WideOf(s, o) then 0x8000_0000_0000_0000 else 0
  {
    EightIsValue(s, 0, o);
    assert s[..8] == s[0..8];
  }

  /** A charpack: the count in 8 bytes, whose bit 63 says wide, then 4 bytes an end
      offset, or 8 in a wide one, a byte a tag, and the bytes. */
  lemma {:induction false} BufferHead(s: seq<byte>, recs: seq<Rec>, wide: bool, o: Order)
    requires Holds(s, recs, wide, o)
    ensures |s| == 8 + |recs| * (if wide then 9 else 5) + Total(recs)
    ensures Eight(s, 0, o) == |recs| + if wide then 0x8000_0000_0000_0000 else 0
  {
    HoldsFields(s, recs, wide, o);
    HeadNumber(s, o);
  }

  lemma {:induction false} BufferEnd(s: seq<byte>, recs: seq<Rec>, wide: bool, o: Order, i: nat)
    requires Holds(s, recs, wide, o) && i < |recs|
    ensures 8 + (i + 1) * (if wide then 8 else 4) <= |s|
    ensures if wide then Eight(s, 8 + 8 * i, o) == Start(recs, i + 1) else Four(s, 8 + 4 * i, o) == Start(recs, i + 1)
  {
    EndInPlace(s, recs, wide, o, i);
    if wide {
      EightIsValue(s, 8 + 8 * i, o);
    } else {
      FourIsValue(s, 8 + 4 * i, o);
    }
  }

  lemma {:induction false} BufferRecord(s: seq<byte>, recs: seq<Rec>, wide: bool, o: Order, i: nat)
    requires Holds(s, recs, wide, o) && i < |recs|
    ensures var m := 8 + |recs| * (if wide then 9 else 5);
            PackedAt(s, recs[i], m + Start(recs, i + 1), m - |recs| + i, m + Start(recs, i))
  {
    EndInPlace(s, recs, wide, o, i);
    ImageSpan(recs, wide, o, s, i);
  }

  // The serialized charvec.

  /** "CPV1" or "CPV2", 1 for little-endian or 2 for big-endian, the count in 8
      bytes, 4 bytes a size, a byte a tag, and the bytes. */
  lemma {:induction false} StateBytes(s: seq<byte>, v: Version, o: Order, recs: seq<Rec>, i: nat)
    requires WritesCpv(s, v, o, recs)
    ensures |s| == 13 + 5 * |recs| + Total(recs)
    ensures s[0] == 'C' as int && s[1] == 'P' as int && s[2] == 'V' as int && s[3] == (if v.Cpv1? then '1' as int else '2' as int)
    ensures s[4] == (if o.Little? then 1 else 2) && Eight(s, 5, o) == |recs|
    ensures i < |recs| ==>
              && Four(s, 13 + 4 * i, o) == |recs[i].Bytes()|
              && PackedAt(s, recs[i], 13 + 5 * |recs| + Start(recs, i + 1), 13 + 4 * |recs| + i, 13 + 5 * |recs| + Start(recs, i))
  {
    StateHead(s, v, o, recs);
    if i < |recs| {
      StateSize(s, v, o, recs, i);
      StateRecord(s, v, o, recs, i);
    }
  }

  lemma {:induction false} StateHead(s: seq<byte>, v: Version, o: Order, recs: seq<Rec>)
    requires WritesCpv(s, v, o, recs)
    ensures |s| == 13 + 5 * |recs| + Total(recs)
    ensures s[0] == 'C' as int && s[1] == 'P' as int && s[2] == 'V' as int && s[3] == (if v.Cpv1? then '1' as int else '2' as int)
    ensures s[4] == (if o.Little? then 1 else 2) && Eight(s, 5, o) == |recs|
  {
    var p, body := Prefix(v, o), s[PREFIX..];
    assert s[0] == p[0] && s[1] == p[1] && s[2] == p[2] && s[3] == p[3] && s[4] == p[4];
    PayloadLength(recs);
    assert body[..8] == s[5..13];
    EightIsValue(s, 5, o);
    assert HeadOf(body, o) < WIDE_BIT;
  }

  lemma {:induction false} StateSize(s: seq<byte>, v: Version, o: Order, recs: seq<Rec>, i: nat)
    requires WritesCpv(s, v, o, recs) && i < |recs|
    ensures 13 + 4 * (i + 1) <= |s| && Four(s, 13 + 4 * i, o) == |recs[i].Bytes()|
  {
    var body, f := s[PREFIX..], BodyFields(recs);
    assert Here(i) && f.ends[i] == |recs[i].Bytes()|;
    assert body[8 + 4 * i..8 + 4 * (i + 1)] == s[13 + 4 * i..13 + 4 * i + 4];
    FourIsValue(s, 13 + 4 * i, o);
  }

  lemma {:induction false} StateRecord(s: seq<byte>, v: Version, o: Order, recs: seq<Rec>, i: nat)
    requires WritesCpv(s, v, o, recs) && i < |recs|
    ensures PackedAt(s, recs[i], 13 + 5 * |recs| + Start(recs, i + 1), 13 + 4 * |recs| + i, 13 + 5 * |recs| + Start(recs, i))
  {
    RecordThere(s, v, o, recs, i);
  }
}
