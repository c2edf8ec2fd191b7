/** Subsetting a filled charpack into a new one without making R strings. */
module PackSubset {
  import opened Records
  import opened RStrings
  import opened Words
  import opened Memory
  import opened PackLayout
  import opened PackRecords
  import opened PackState
  import opened PackFill

  /** An R double: finite, or one of NA, NaN and the infinities. */
  datatype Double = NotFinite | Finite(x: real)

  /** One-based R subscripts. */
  datatype Subscripts = Ints(ints: seq<int>) | Reals(reals: seq<Double>) {
    function Size(): nat {
      if Ints? then |ints| else |reals|
    }

    /** The zero-based record a subscript selects, or n for NA. */
    function Selected(j: nat, n: nat): (i: nat)
      requires j < Size()
      ensures i <= n
    {
      if Ints? then
        var k := ints[j];
        if k == NA_INTEGER || k < 1 || k > n then n else k - 1
      else
        match reals[j]
        case NotFinite => n
        case Finite(x) => if 1.0 <= x < n as real + 1.0 then x.Floor - 1 else n
    }
  }

  function SelectedRec(recs: seq<Rec>, i: nat): Rec
    requires i <= |recs|
  {
    if i == |recs| then NA else recs[i]
  }

  /** x[sub], on records. */
  function Subset(recs: seq<Rec>, sub: Subscripts): (out: seq<Rec>)
    ensures |out| == sub.Size()
  {
    seq(sub.Size(), j requires 0 <= j < sub.Size() => SelectedRec(recs, sub.Selected(j, |recs|)))
  }

  /** An integer subscript selects as R defines it: one-based, NA outside. */
  lemma {:induction false} IntSelects(recs: seq<Rec>, ints: seq<int>, j: nat)
    requires j < |ints|
    ensures Subset(recs, Ints(ints))[j] == if 1 <= ints[j] <= |recs| then recs[ints[j] - 1] else NA
  {
  }

  /** A real subscript selects what its integer part selects. */
  lemma {:induction false} RealTruncates(recs: seq<Rec>, reals: seq<Double>, j: nat)
    requires j < |reals|
    ensures Subset(recs, Reals(reals))[j] ==
            match reals[j]
            case NotFinite => NA
            case Finite(x) => if 1 <= x.Floor <= |recs| then recs[x.Floor - 1] else NA
  {
  }

  /** x[sub], on strings. */
  function SelectStrings(xs: seq<RString>, sub: Subscripts): (out: seq<RString>)
    ensures |out| == sub.Size()
  {
    seq(sub.Size(), j requires 0 <= j < sub.Size() =>
      var i := sub.Selected(j, |xs|); if i == |xs| then NaString else xs[i])
  }

  /** Subsetting records and subsetting their strings agree. */
  lemma {:induction false} SelectCommutes(recs: seq<Rec>, sub: Subscripts)
    ensures Elements(Subset(recs, sub)) == SelectStrings(Elements(recs), sub)
  {
  }

  lemma {:induction false} SubsetValid(recs: seq<Rec>, sub: Subscripts)
    requires AllValid(recs)
    ensures AllValid(Subset(recs, sub))
  {
    forall j | 0 <= j < sub.Size()
      ensures Subset(recs, sub)[j].Valid()
    {
      var i := sub.Selected(j, |recs|);
      assert i < |recs| ==> recs[i].Valid();
    }
  }

  /** The subscripts that select at once what b selects from what a selected. */
  function Compose(a: Subscripts, b: Subscripts): (c: Subscripts)
    ensures c.Size() == b.Size()
  {
    var m := b.Size();
    if a.Ints? then
      Ints(seq(m, j requires 0 <= j < m => var k := b.Selected(j, |a.ints|); if k == |a.ints| then NA_INTEGER else a.ints[k]))
    else
      Reals(seq(m, j requires 0 <= j < m => var k := b.Selected(j, |a.reals|); if k == |a.reals| then NotFinite else a.reals[k]))
  }

  /** x[a][b] is x[a[b]]. */
  lemma {:induction false} SubsetComposes(recs: seq<Rec>, a: Subscripts, b: Subscripts)
    ensures Subset(Subset(recs, a), b) == Subset(recs, Compose(a, b))
  {
    var once, c := Subset(recs, a), Compose(a, b);
    forall j | 0 <= j < b.Size()
      ensures Subset(once, b)[j] == Subset(recs, c)[j]
    {
      var k := b.Selected(j, a.Size());
      if k == a.Size() {
        assert c.Selected(j, |recs|) == |recs|;
      } else {
        assert c.Selected(j, |recs|) == a.Selected(k, |recs|);
      }
    }
  }

  /** The buffer that holds x[sub]: the narrowest layout of the selected records. */
  ghost predicate HoldsSubset(s: seq<byte>, recs: seq<Rec>, sub: Subscripts, host: Order) {
    Holds(s, Subset(recs, sub), NeedsWide(Total(Subset(recs, sub))), host)
  }

  /** Subsetting twice, and once by the composed subscripts, give the same buffer byte for byte. */
  lemma {:induction false} SubsetBytesCompose(recs: seq<Rec>, a: Subscripts, b: Subscripts, host: Order,
                                              twice: seq<byte>, once: seq<byte>)
    requires HoldsSubset(twice, Subset(recs, a), b, host)
    requires HoldsSubset(once, recs, Compose(a, b), host)
    ensures twice == once
  {
    var sub := Subset(recs, Compose(a, b));
    SubsetComposes(recs, a, b);
    HoldsImage(twice, sub, NeedsWide(Total(sub)), host);
    HoldsImage(once, sub, NeedsWide(Total(sub)), host);
  }

  /** No layout of the selected records is narrower. */
  lemma {:induction false} SubsetNarrowest(s: seq<byte>, recs: seq<Rec>, sub: Subscripts, host: Order,
                                           other: seq<byte>, wide: bool)
    requires HoldsSubset(s, recs, sub, host) && Holds(other, Subset(recs, sub), wide, host)
    ensures |s| <= |other|
  {
    HoldsFields(s, Subset(recs, sub), NeedsWide(Total(Subset(recs, sub))), host);
    HoldsFields(other, Subset(recs, sub), wide, host);
  }

  /** The bounds of the record selected by a subscript, in the source buffer. */
  method SourceBounds(raw: array<byte>, n: nat, wide: bool, host: Order, i: nat,
                      ghost s: seq<byte>, ghost from: nat, ghost to: nat, ghost r: Rec)
    returns (begin: nat, end: nat)
    requires raw[..] == s && i < n && RecordIn(s, n, wide, host, i, from, to, r)
    ensures begin == from && end == to && end - begin == |r.Bytes()|
  {
    begin := 0;
    if i > 0 {
      begin := ReadEnd(raw, wide, i - 1, host, false);
    }
    end := ReadEnd(raw, wide, i, host, false);
  }

  method SelectedSize(raw: array<byte>, n: nat, wide: bool, host: Order, i: nat, ghost s: seq<byte>, ghost recs: seq<Rec>)
    returns (len: nat)
    requires raw[..] == s && i < n == |recs| && RecordsIn(s, recs, wide, host)
    ensures len == |recs[i].Bytes()|
  {
    assert Here(i);
    var begin, end := SourceBounds(raw, n, wide, host, i, s, Start(recs, i), Start(recs, i + 1), recs[i]);
    len := end - begin;
  }

  /** The counting pass. */
  method CountSubset(raw: array<byte>, n: nat, wide: bool, host: Order, sub: Subscripts, ghost s: seq<byte>, ghost recs: seq<Rec>)
    returns (r: Result<usize, FillError>)
    requires raw[..] == s && n == |recs| && RecordsIn(s, recs, wide, host)
    ensures r == if Total(Subset(recs, sub)) < U64_LIMIT then Ok(Total(Subset(recs, sub))) else Err(SizeOverflow)
  {
    ghost var out := Subset(recs, sub);
    var payload: usize := 0;
    var j := 0;
    while j < sub.Size()
      invariant j <= sub.Size() && payload == Start(out, j) && raw[..] == s
    {
      var i := sub.Selected(j, n);
      assert out[j] == SelectedRec(recs, i);
      if i != n {
        var len := SelectedSize(raw, n, wide, host, i, s, recs);
        if payload > U64_LIMIT - 1 - len {
          StartMonotone(out, j + 1, sub.Size());
          return Err(SizeOverflow);
        }
        payload := payload + len;
      }
      j := j + 1;
    }
    return Ok(payload);
  }

  /** The first e end offsets, t tags and size bytes of the image are in place. */
  ghost predicate Copied(dst: array<byte>, image: seq<byte>, m: nat, wide: bool, e: nat, t: nat, size: nat)
    reads dst
  {
    && e <= m && t <= m && BytesStart(m, wide) + size <= dst.Length == |image|
    && Matches(dst, image, 0, HEADER + At(wide, e))
    && Matches(dst, image, TagsStart(m, wide), TagsStart(m, wide) + t)
    && Matches(dst, image, BytesStart(m, wide), BytesStart(m, wide) + size)
  }

  method CopyTag(dst: array<byte>, m: nat, wide: bool, j: nat, begin: nat, tag: byte, ghost image: seq<byte>)
    requires j < m && Copied(dst, image, m, wide, j, j, begin) && image[TagsStart(m, wide) + j] == tag
    modifies dst
    ensures Copied(dst, image, m, wide, j, j + 1, begin)
  {
    dst[TagsStart(m, wide) + j] := tag;
  }

  method CopyBytes(dst: array<byte>, m: nat, wide: bool, j: nat, begin: nat, bytes: seq<byte>, ghost image: seq<byte>)
    requires j < m && Copied(dst, image, m, wide, j, j + 1, begin) && BytesStart(m, wide) + begin + |bytes| <= |image|
    requires image[BytesStart(m, wide) + begin..BytesStart(m, wide) + begin + |bytes|] == bytes
    modifies dst
    ensures Copied(dst, image, m, wide, j, j + 1, begin + |bytes|)
  {
    if |bytes| > 0 {
      WritePiece(dst, BytesStart(m, wide) + begin, bytes, image);
    }
  }

  method CopyEnd(dst: array<byte>, m: nat, wide: bool, host: Order, j: nat, end: nat, ghost image: seq<byte>)
    requires j < m && Copied(dst, image, m, wide, j, j + 1, end) && EndAt(image, wide, j, host) == end
    modifies dst
    ensures Copied(dst, image, m, wide, j + 1, j + 1, end)
  {
    EndWord(image, wide, j, host);
    WritePiece(dst, HEADER + At(wide, j), Word(end, Width(wide), host), image);
  }

  /** Writes one record: its tag, its bytes and its end offset. */
  method CopyRecord(dst: array<byte>, m: nat, wide: bool, host: Order, j: nat, begin: nat, tag: byte, bytes: seq<byte>,
                    ghost image: seq<byte>, ghost r: Rec)
    requires j < m && |image| == dst.Length && tag == r.Tag() && bytes == r.Bytes()
    requires RecordIn(image, m, wide, host, j, begin, begin + |bytes|, r)
    requires Copied(dst, image, m, wide, j, j, begin)
    modifies dst
    ensures Copied(dst, image, m, wide, j + 1, j + 1, begin + |bytes|)
  {
    CopyTag(dst, m, wide, j, begin, tag, image);
    CopyBytes(dst, m, wide, j, begin, bytes, image);
    CopyEnd(dst, m, wide, host, j, begin + |bytes|, image);
  }

  method ReadRecord(raw: array<byte>, n: nat, wide: bool, host: Order, i: nat,
                    ghost s: seq<byte>, ghost from: nat, ghost to: nat, ghost r: Rec)
    returns (tag: byte, bytes: seq<byte>)
    requires raw[..] == s && i < n && RecordIn(s, n, wide, host, i, from, to, r)
    ensures tag == r.Tag() && bytes == r.Bytes()
  {
    var begin, end := SourceBounds(raw, n, wide, host, i, s, from, to, r);
    tag, bytes := raw[TagsStart(n, wide) + i], raw[BytesStart(n, wide) + begin..BytesStart(n, wide) + end];
    assert bytes == s[BytesStart(n, wide) + begin..BytesStart(n, wide) + end];
  }

  /** The tag and the bytes a subscript selects: NA's for none. */
  method ReadSelected(raw: array<byte>, n: nat, wide: bool, host: Order, i: nat,
                      ghost s: seq<byte>, ghost recs: seq<Rec>)
    returns (tag: byte, bytes: seq<byte>)
    requires raw[..] == s && i <= n == |recs| && RecordsIn(s, recs, wide, host)
    ensures tag == SelectedRec(recs, i).Tag() && bytes == SelectedRec(recs, i).Bytes()
  {
    tag, bytes := NA_TAG, [];
    if i != n {
      assert Here(i);
      tag, bytes := ReadRecord(raw, n, wide, host, i, s, Start(recs, i), Start(recs, i + 1), recs[i]);
    }
  }

  /** Copies the record that subscript j selects. */
  method CopySelected(raw: array<byte>, n: nat, wide: bool, host: Order, sub: Subscripts, dst: array<byte>, outWide: bool,
                      j: nat, begin: nat, ghost s: seq<byte>, ghost recs: seq<Rec>, ghost image: seq<byte>, ghost r: Rec)
    returns (end: nat)
    requires raw != dst && raw[..] == s && n == |recs| && RecordsIn(s, recs, wide, host)
    requires j < sub.Size() && r == SelectedRec(recs, sub.Selected(j, n))
    requires RecordIn(image, sub.Size(), outWide, host, j, begin, begin + |r.Bytes()|, r)
    requires Copied(dst, image, sub.Size(), outWide, j, j, begin)
    modifies dst
    ensures end == begin + |r.Bytes()| && Copied(dst, image, sub.Size(), outWide, j + 1, j + 1, end)
  {
    var tag, bytes := ReadSelected(raw, n, wide, host, sub.Selected(j, n), s, recs);
    CopyRecord(dst, sub.Size(), outWide, host, j, begin, tag, bytes, image, r);
    end := begin + |bytes|;
  }

  /** Names a subscript that is about to be copied. */
  predicate Now(j: int) {
    true
  }

  /** Output record j is what its subscript selects, and lies where the image has it. */
  ghost predicate Planned(recs: seq<Rec>, sub: Subscripts, out: seq<Rec>, wide: bool, host: Order, image: seq<byte>)
    requires |out| == sub.Size()
  {
    forall j {:trigger Now(j)} :: 0 <= j < |out| && Now(j) ==>
      && out[j] == SelectedRec(recs, sub.Selected(j, |recs|))
      && RecordIn(image, |out|, wide, host, j, Start(out, j), Start(out, j) + |out[j].Bytes()|, out[j])
  }

  lemma {:induction false} PlaceOf(out: seq<Rec>, wide: bool, host: Order, image: seq<byte>, j: nat)
    requires Holds(image, out, wide, host) && j < |out|
    ensures RecordIn(image, |out|, wide, host, j, Start(out, j), Start(out, j) + |out[j].Bytes()|, out[j])
  {
    HoldsRecord(image, out, wide, host, j);
    assert Start(out, j + 1) == Start(out, j) + |out[j].Bytes()|;
  }

  ghost predicate Placed(out: seq<Rec>, wide: bool, host: Order, image: seq<byte>) {
    forall j {:trigger Now(j)} :: 0 <= j < |out| && Now(j) ==>
      RecordIn(image, |out|, wide, host, j, Start(out, j), Start(out, j) + |out[j].Bytes()|, out[j])
  }

  lemma {:induction false} OutputPlaced(out: seq<Rec>, wide: bool, host: Order, image: seq<byte>)
    requires Holds(image, out, wide, host)
    ensures Placed(out, wide, host, image)
  {
    forall j {:trigger Now(j)} | 0 <= j < |out| && Now(j)
      ensures RecordIn(image, |out|, wide, host, j, Start(out, j), Start(out, j) + |out[j].Bytes()|, out[j])
    {
      PlaceOf(out, wide, host, image, j);
    }
  }

  lemma {:induction false} SubsetPlanned(recs: seq<Rec>, sub: Subscripts, out: seq<Rec>, wide: bool, host: Order, image: seq<byte>)
    requires out == Subset(recs, sub) && Placed(out, wide, host, image)
    ensures Planned(recs, sub, out, wide, host, image)
  {
  }

  /** One step of the copying pass. */
  method CopyNext(raw: array<byte>, n: nat, wide: bool, host: Order, sub: Subscripts, dst: array<byte>, outWide: bool, j: nat, begin: nat,
                  ghost s: seq<byte>, ghost recs: seq<Rec>, ghost out: seq<Rec>, ghost image: seq<byte>)
    returns (end: nat)
    requires raw != dst && raw[..] == s && n == |recs| && RecordsIn(s, recs, wide, host)
    requires |out| == sub.Size() && Planned(recs, sub, out, outWide, host, image) && j < |out| && begin == Start(out, j)
    requires Copied(dst, image, |out|, outWide, j, j, begin)
    modifies dst
    ensures end == Start(out, j + 1) && Copied(dst, image, |out|, outWide, j + 1, j + 1, end)
  {
    assert Now(j);
    end := CopySelected(raw, n, wide, host, sub, dst, outWide, j, begin, s, recs, image, out[j]);
  }

  /** The copying pass: it writes exactly the bytes the counting pass sized. */
  method CopySubset(raw: array<byte>, n: nat, wide: bool, host: Order, sub: Subscripts, dst: array<byte>, outWide: bool,
                    ghost s: seq<byte>, ghost recs: seq<Rec>, ghost out: seq<Rec>, ghost image: seq<byte>)
    requires raw != dst && raw[..] == s && n == |recs| && RecordsIn(s, recs, wide, host)
    requires |out| == sub.Size() && Planned(recs, sub, out, outWide, host, image)
    requires |image| == dst.Length == BytesStart(|out|, outWide) + Total(out)
    requires Matches(dst, image, 0, HEADER)
    modifies dst
    ensures dst[..] == image
  {
    var end := 0;
    var j := 0;
    while j < sub.Size()
      invariant j <= sub.Size() && end == Start(out, j)
      invariant Copied(dst, image, sub.Size(), outWide, j, j, end)
      invariant raw[..] == s
    {
      end := CopyNext(raw, n, wide, host, sub, dst, outWide, j, end, s, recs, out, image);
      j := j + 1;
    }
    AllCopied(dst, image, sub.Size(), outWide, end);
  }

  lemma {:induction false} AllCopied(dst: array<byte>, image: seq<byte>, m: nat, wide: bool, size: nat)
    requires Copied(dst, image, m, wide, m, m, size) && BytesStart(m, wide) + size == |image|
    ensures dst[..] == image
  {
  }

  /** The selected records in a new buffer, the narrowest that holds them. It
      fails only when their total size is too large for any. */
  method ExtractSubset(raw: array<byte>, host: Order, sub: Subscripts, ghost recs: seq<Rec>, ghost w: bool)
    returns (r: Result<array<byte>, FillError>)
    requires Holds(raw[..], recs, w, host) && sub.Size() <= XLEN_MAX
    ensures r.Ok? ==> fresh(r.value) && r.value.Length <= XLEN_MAX && HoldsSubset(r.value[..], recs, sub, host)
    ensures r.Err? ==> r.error == if Total(Subset(recs, sub)) >= U64_LIMIT then SizeOverflow else TooLarge
    ensures r.Ok? <==> Fits(sub.Size(), Total(Subset(recs, sub)), false)
  {
    ghost var out := Subset(recs, sub);
    SubsetValid(recs, sub);
    var n, wide := ReadCount(raw, host, recs, w);
    HoldsRecords(raw[..], recs, w, host);
    var counted := CountSubset(raw, n, wide, host, sub, raw[..], recs);
    if counted.Err? {
      return Err(counted.error);
    }
    var payload, outWide := counted.value, NeedsWide(counted.value);
    var total := TotalBytes(sub.Size(), payload, outWide);
    if total == 0 {
      return Err(TooLarge);
    }
    ghost var image := Image(out, outWide, host);
    HoldsImage(image, out, outWide, host);
    HoldsFields(image, out, outWide, host);
    ImageHead(out, outWide, host, image);
    OutputPlaced(out, outWide, host, image);
    SubsetPlanned(recs, sub, out, outWide, host, image);
    var dst := new byte[total];
    WritePiece(dst, 0, Word(Head(sub.Size(), outWide), HEADER, host), image);
    CopySubset(raw, n, wide, host, sub, dst, outWide, raw[..], recs, out, image);
    return Ok(dst);
  }
}
