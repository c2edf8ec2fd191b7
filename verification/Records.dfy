/** The values both packed representations store: a vector of records, each NA
    or a byte string with an encoding tag, and the R strings they stand for. */
module Records {
  import opened Seqs

  type byte = b: int | 0 <= b < 0x100
  type u32 = x: int | 0 <= x < 0x1_0000_0000
  type usize = x: int | 0 <= x < 0x1_0000_0000_0000_0000

  const U32_LIMIT := 0x1_0000_0000
  const U64_LIMIT := 0x1_0000_0000_0000_0000

  /** R's string limit: the largest C int. */
  const STRING_MAX := 0x7fff_ffff

  /** R_XLEN_T_MAX: R's maximum vector length. */
  const XLEN_MAX := 0x10_0000_0000_0000

  /** NA_INTEGER, the length of an NA view. */
  const NA_INTEGER := -0x8000_0000

  // The one-byte encoding tags.
  const NATIVE: byte := 0
  const UTF8: byte := 1
  const LATIN1: byte := 2
  const BYTES: byte := 3
  const ASCII_OR_UTF8: byte := 100
  const ASCII: byte := 254
  const NA_TAG: byte := 255

  predicate ValidTag(t: byte) {
    t == NATIVE || t == UTF8 || t == LATIN1 || t == BYTES || t == ASCII_OR_UTF8 || t == ASCII || t == NA_TAG
  }

  datatype Option<+T> = None | Some(value: T)

  datatype Result<+T, +E> = Ok(value: T) | Err(error: E)

  datatype Rec = NA | Str(bytes: seq<byte>, tag: byte) {
    function Bytes(): seq<byte> {
      if NA? then [] else bytes
    }

    function Tag(): byte {
      if NA? then NA_TAG else tag
    }

    predicate Valid() {
      Str? ==> ValidTag(tag) && tag != NA_TAG && |bytes| <= STRING_MAX
    }
  }

  ghost predicate AllValid(recs: seq<Rec>) {
    forall i :: 0 <= i < |recs| ==> recs[i].Valid()
  }

  /** The payload offset at which record i begins, which is also the end offset of record i - 1. */
  function Start(recs: seq<Rec>, i: nat): nat
    requires i <= |recs|
  {
    if i == 0 then 0 else Start(recs, i - 1) + |recs[i - 1].Bytes()|
  }

  function Total(recs: seq<Rec>): nat {
    Start(recs, |recs|)
  }

  /** The tags in order. */
  function Tags(recs: seq<Rec>): (s: seq<byte>)
    ensures |s| == |recs|
  {
    seq(|recs|, i requires 0 <= i < |recs| => recs[i].Tag())
  }

  /** The bytes of all records, end to end. */
  function Payload(recs: seq<Rec>): seq<byte> {
    if recs == [] then [] else Payload(recs[..|recs| - 1]) + recs[|recs| - 1].Bytes()
  }

  lemma {:induction false} StartOfPrefix(recs: seq<Rec>, n: nat, i: nat)
    requires i <= n <= |recs|
    ensures Start(recs[..n], i) == Start(recs, i)
  {
    if i > 0 {
      StartOfPrefix(recs, n, i - 1);
    }
  }

  lemma {:induction false} StartMonotone(recs: seq<Rec>, i: nat, j: nat)
    requires i <= j <= |recs|
    ensures Start(recs, i) <= Start(recs, j)
  {
    if i < j {
      StartMonotone(recs, i, j - 1);
    }
  }

  lemma {:induction false} PayloadLength(recs: seq<Rec>)
    ensures |Payload(recs)| == Total(recs)
  {
    if recs != [] {
      PayloadLength(recs[..|recs| - 1]);
      StartOfPrefix(recs, |recs| - 1, |recs| - 1);
    }
  }

  /** What lies in front of the last record's bytes is the payload of the rest. */
  lemma {:induction false} PayloadFront(recs: seq<Rec>, n: nat, p: seq<byte>, q: seq<byte>)
    requires |recs| == n + 1 && p == Payload(recs[..n]) && q == recs[n].Bytes()
    ensures Payload(recs) == p + q && |p| == Start(recs, n) && Start(recs, n + 1) == |p| + |q|
  {
    PayloadLength(recs[..n]);
    StartOfPrefix(recs, n, n);
  }

  lemma {:induction false} SpanBounds(recs: seq<Rec>, i: nat)
    requires i < |recs|
    ensures Start(recs, i) <= Start(recs, i + 1) <= Total(recs) == |Payload(recs)|
  {
    PayloadLength(recs);
    StartMonotone(recs, i + 1, |recs|);
  }

  /** Record i is the span [Start(i), Start(i + 1)) of the payload. */
  lemma {:induction false} PayloadSpan(recs: seq<Rec>, i: nat)
    requires i < |recs|
    ensures Start(recs, i) <= Start(recs, i + 1) <= Total(recs) == |Payload(recs)|
    ensures Payload(recs)[Start(recs, i)..Start(recs, i + 1)] == recs[i].Bytes()
  {
    var n := |recs| - 1;
    var front := recs[..n];
    var p, q := Payload(front), recs[n].Bytes();
    SpanBounds(recs, i);
    PayloadFront(recs, n, p, q);
    if i < n {
      PayloadSpan(front, i);
      StartOfPrefix(recs, n, i);
      StartOfPrefix(recs, n, i + 1);
      SpanInFront(p, q, Start(front, i), Start(front, i + 1), front[i].Bytes());
    } else {
      AtBack(p, q);
    }
  }

  lemma {:induction false} SpanInFront(p: seq<byte>, q: seq<byte>, a: nat, b: nat, r: seq<byte>)
    requires a <= b <= |p| && p[a..b] == r
    ensures a <= b <= |p + q| && (p + q)[a..b] == r
  {
    InFront(p, q, a, b);
  }

  lemma {:induction false} SnocPayload(recs: seq<Rec>, r: Rec)
    ensures Payload(recs + [r]) == Payload(recs) + r.Bytes()
  {
    assert (recs + [r])[..|recs|] == recs;
  }

  /** Records with the same bytes, one by one, have the same payload. */
  lemma {:induction false} SamePayload(a: seq<Rec>, b: seq<Rec>)
    requires |a| == |b| && forall i :: 0 <= i < |a| ==> a[i].Bytes() == b[i].Bytes()
    ensures Payload(a) == Payload(b)
  {
    if a != [] {
      SamePayload(a[..|a| - 1], b[..|b| - 1]);
    }
  }

  /** A record whose bytes follow a prefix of the payload extends that prefix. */
  lemma {:induction false} PayloadStep(front: seq<Rec>, r: Rec, bytes: seq<byte>, begin: nat, end: nat)
    requires begin <= end <= |bytes|
    requires Payload(front) == bytes[..begin] && r.Bytes() == bytes[begin..end]
    ensures Payload(front + [r]) == bytes[..end]
  {
    SnocPayload(front, r);
    assert bytes[..end] == bytes[..begin] + bytes[begin..end];
  }

  lemma {:induction false} SameStart(a: seq<Rec>, b: seq<Rec>, k: nat)
    requires |a| == |b| && k <= |a| && forall i :: 0 <= i < |a| ==> |a[i].Bytes()| == |b[i].Bytes()|
    ensures Start(a, k) == Start(b, k)
  {
    if k > 0 {
      SameStart(a, b, k - 1);
    }
  }

  /** Records of the same tags and lengths, with the same payload, are the same. */
  lemma {:induction false} SameRecs(a: seq<Rec>, b: seq<Rec>)
    requires |a| == |b| && Payload(a) == Payload(b)
    requires forall i :: 0 <= i < |a| ==> a[i].NA? == b[i].NA? && a[i].Tag() == b[i].Tag() && |a[i].Bytes()| == |b[i].Bytes()|
    ensures a == b
  {
    forall i | 0 <= i < |a|
      ensures a[i] == b[i]
    {
      SameStart(a, b, i);
      SameStart(a, b, i + 1);
      PayloadSpan(a, i);
      PayloadSpan(b, i);
    }
  }
}
