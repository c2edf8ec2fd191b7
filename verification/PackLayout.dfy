/** The charpack buffer: [u64 head][end offset x n][u8 tag x n][bytes]. */
module PackLayout {
  import opened Records
  import opened Words
  import opened Seqs

  const HEADER := 8
  const WIDE_BIT := 0x8000_0000_0000_0000

  /** sizeof the end-offset type. */
  function Width(wide: bool): nat {
    if wide then 8 else 4
  }

  /** The size of i end offsets. */
  function At(wide: bool, i: nat): nat {
    if wide then 8 * i else 4 * i
  }

  /** The number of values an end offset can hold. */
  function Limit(wide: bool): nat {
    if wide then U64_LIMIT else U32_LIMIT
  }

  predicate NeedsWide(payload: nat) {
    payload > U32_LIMIT - 1
  }

  function Head(n: nat, wide: bool): nat {
    n + if wide then WIDE_BIT else 0
  }

  function TagsStart(n: nat, wide: bool): nat {
    HEADER + At(wide, n)
  }

  function BytesStart(n: nat, wide: bool): nat {
    TagsStart(n, wide) + n
  }

  /** The pieces in order, end to end. */
  function Flat(pieces: seq<seq<byte>>): seq<byte> {
    if pieces == [] then [] else Flat(pieces[..|pieces| - 1]) + pieces[|pieces| - 1]
  }

  /** The words in order, end to end. */
  function WordsOf(xs: seq<nat>, wide: bool, o: Order): seq<byte> {
    Flat(seq(|xs|, i requires 0 <= i < |xs| => Word(xs[i], Width(wide), o)))
  }

  /** What a buffer says, before any record is looked at. */
  datatype Fields = Fields(wide: bool, ends: seq<nat>, tags: seq<byte>, bytes: seq<byte>) {
    ghost predicate Ok() {
      |ends| == |tags| < WIDE_BIT && forall i :: 0 <= i < |ends| ==> ends[i] < Limit(wide)
    }
  }

  /** The buffer that says f, as the format's description lays it out. */
  function Frame(f: Fields, o: Order): seq<byte> {
    Word(Head(|f.ends|, f.wide), HEADER, o) + WordsOf(f.ends, f.wide, o) + f.tags + f.bytes
  }

  // Reading a buffer.

  function HeadOf(s: seq<byte>, o: Order): nat
    requires HEADER <= |s|
  {
    Value(s[..HEADER], o)
  }

  predicate WideOf(s: seq<byte>, o: Order)
    requires HEADER <= |s|
  {
    HeadOf(s, o) >= WIDE_BIT
  }

  function CountOf(s: seq<byte>, o: Order): nat
    requires HEADER <= |s|
  {
    HeadOf(s, o) % WIDE_BIT
  }

  /** The head and the regions it names fit in the buffer. */
  predicate HeadFits(s: seq<byte>, o: Order) {
    HEADER <= |s| && BytesStart(CountOf(s, o), WideOf(s, o)) <= |s|
  }

  function EndAt(s: seq<byte>, wide: bool, i: nat, o: Order): nat
    requires HEADER + At(wide, i + 1) <= |s|
  {
    Value(s[HEADER + At(wide, i)..HEADER + At(wide, i + 1)], o)
  }

  function FieldsOf(s: seq<byte>, o: Order): (f: Fields)
    requires HeadFits(s, o)
    ensures |f.ends| == |f.tags| == CountOf(s, o)
  {
    var n, wide := CountOf(s, o), WideOf(s, o);
    Fields(wide, seq(n, i requires 0 <= i < n => EndAt(s, wide, i, o)),
           s[TagsStart(n, wide)..BytesStart(n, wide)], s[BytesStart(n, wide)..])
  }

  /** Names an index whose end offset is to be decoded. */
  predicate Here(i: int) {
    true
  }

  /** s, read in order o, says f and nothing else. */
  ghost predicate Says(s: seq<byte>, o: Order, f: Fields) {
    && HEADER <= |s| && CountOf(s, o) == |f.ends| == |f.tags| && WideOf(s, o) == f.wide
    && |s| == BytesStart(|f.ends|, f.wide) + |f.bytes|
    && s[TagsStart(|f.ends|, f.wide)..BytesStart(|f.ends|, f.wide)] == f.tags
    && s[BytesStart(|f.ends|, f.wide)..] == f.bytes
    && forall i {:trigger Here(i)} :: 0 <= i < |f.ends| && Here(i) ==> EndAt(s, f.wide, i, o) == f.ends[i]
  }

  /** Saying f is having the fields f. */
  lemma {:induction false} SaysFields(s: seq<byte>, o: Order, f: Fields)
    ensures Says(s, o, f) <==> HeadFits(s, o) && FieldsOf(s, o) == f
  {
    if Says(s, o, f) {
      forall i | 0 <= i < |f.ends|
        ensures FieldsOf(s, o).ends[i] == f.ends[i]
      {
        assert Here(i);
      }
      assert FieldsOf(s, o).ends == f.ends;
    }
  }

  lemma {:induction false} FlatLength(pieces: seq<seq<byte>>, wide: bool)
    requires forall i :: 0 <= i < |pieces| ==> |pieces[i]| == Width(wide)
    ensures |Flat(pieces)| == At(wide, |pieces|)
  {
    if pieces != [] {
      FlatLength(pieces[..|pieces| - 1], wide);
    }
  }

  lemma {:induction false} FlatAt(pieces: seq<seq<byte>>, wide: bool, i: nat)
    requires forall k :: 0 <= k < |pieces| ==> |pieces[k]| == Width(wide)
    requires i < |pieces|
    ensures |Flat(pieces)| == At(wide, |pieces|)
    ensures Flat(pieces)[At(wide, i)..At(wide, i + 1)] == pieces[i]
  {
    var n := |pieces| - 1;
    var front, last := Flat(pieces[..n]), pieces[n];
    FlatLength(pieces[..n], wide);
    if i < n {
      FlatAt(pieces[..n], wide, i);
      InFront(front, last, At(wide, i), At(wide, i + 1));
    } else {
      AtBack(front, last);
    }
  }

  lemma {:induction false} WordsSnoc(xs: seq<nat>, x: nat, wide: bool, o: Order)
    ensures WordsOf(xs + [x], wide, o) == WordsOf(xs, wide, o) + Word(x, Width(wide), o)
  {
    var pieces := seq(|xs|, i requires 0 <= i < |xs| => Word(xs[i], Width(wide), o));
    var ys := xs + [x];
    var more := seq(|ys|, i requires 0 <= i < |ys| => Word(ys[i], Width(wide), o));
    assert more[..|xs|] == pieces;
  }

  lemma {:induction false} WordAt(xs: seq<nat>, wide: bool, o: Order, i: nat, words: seq<byte>)
    requires i < |xs| && words == WordsOf(xs, wide, o)
    ensures |words| == At(wide, |xs|)
    ensures words[At(wide, i)..At(wide, i + 1)] == Word(xs[i], Width(wide), o)
  {
    FlatAt(seq(|xs|, k requires 0 <= k < |xs| => Word(xs[k], Width(wide), o)), wide, i);
  }

  lemma {:induction false} WordsLength(xs: seq<nat>, wide: bool, o: Order)
    ensures |WordsOf(xs, wide, o)| == At(wide, |xs|)
  {
    FlatLength(seq(|xs|, k requires 0 <= k < |xs| => Word(xs[k], Width(wide), o)), wide);
  }

  lemma {:induction false} EndValue(x: nat, wide: bool, o: Order)
    requires x < Limit(wide)
    ensures Value(Word(x, Width(wide), o), o) == x
  {
    PowWidths();
    ValueOfWord(x, Width(wide), o);
  }

  lemma {:induction false} WidthLimit(wide: bool)
    ensures Pow256(Width(wide)) == Limit(wide)
  {
    PowWidths();
  }

  lemma {:induction false} EndWord(s: seq<byte>, wide: bool, i: nat, o: Order)
    requires HEADER + At(wide, i + 1) <= |s|
    ensures EndAt(s, wide, i, o) < Limit(wide)
    ensures Word(EndAt(s, wide, i, o), Width(wide), o) == s[HEADER + At(wide, i)..HEADER + At(wide, i + 1)]
  {
    var word := s[HEADER + At(wide, i)..HEADER + At(wide, i + 1)];
    assert |word| == Width(wide);
    WidthLimit(wide);
    WordOfValue(word, o);
  }

  /** The count and width a head names. */
  lemma {:induction false} HeadNames(n: nat, wide: bool, o: Order)
    requires n < WIDE_BIT
    ensures Value(Word(Head(n, wide), HEADER, o), o) == Head(n, wide)
  {
    PowWidths();
    ValueOfWord(Head(n, wide), HEADER, o);
  }

  lemma {:induction false} HeadWord(s: seq<byte>, o: Order)
    requires HEADER <= |s|
    ensures CountOf(s, o) < WIDE_BIT && HeadOf(s, o) == Head(CountOf(s, o), WideOf(s, o))
    ensures Word(HeadOf(s, o), HEADER, o) == s[..HEADER]
  {
    PowWidths();
    WordOfValue(s[..HEADER], o);
  }

  /** The regions of a frame. */
  lemma {:induction false} FrameRegions(f: Fields, o: Order, s: seq<byte>)
    requires |f.ends| == |f.tags| && s == Frame(f, o)
    ensures |s| == BytesStart(|f.ends|, f.wide) + |f.bytes|
    ensures s[..HEADER] == Word(Head(|f.ends|, f.wide), HEADER, o)
    ensures s[HEADER..TagsStart(|f.ends|, f.wide)] == WordsOf(f.ends, f.wide, o)
    ensures s[TagsStart(|f.ends|, f.wide)..BytesStart(|f.ends|, f.wide)] == f.tags
    ensures s[BytesStart(|f.ends|, f.wide)..] == f.bytes
  {
    var head, words := Word(Head(|f.ends|, f.wide), HEADER, o), WordsOf(f.ends, f.wide, o);
    Regions(s, head, words, f.tags, f.bytes);
    WordsLength(f.ends, f.wide, o);
  }

  lemma {:induction false} WordRegion(xs: seq<nat>, wide: bool, o: Order, s: seq<byte>, words: seq<byte>, i: nat)
    requires i < |xs| && xs[i] < Limit(wide) && words == WordsOf(xs, wide, o)
    requires TagsStart(|xs|, wide) <= |s| && s[HEADER..TagsStart(|xs|, wide)] == words
    ensures EndAt(s, wide, i, o) == xs[i]
  {
    WordAt(xs, wide, o, i, words);
    EndValue(xs[i], wide, o);
    Nested(s, HEADER, TagsStart(|xs|, wide), At(wide, i), At(wide, i + 1));
  }

  lemma {:induction false} RegionsSay(f: Fields, o: Order, s: seq<byte>, words: seq<byte>)
    requires f.Ok() && HEADER <= |s| && CountOf(s, o) == |f.ends| && WideOf(s, o) == f.wide
    requires words == WordsOf(f.ends, f.wide, o)
    requires |s| == BytesStart(|f.ends|, f.wide) + |f.bytes|
    requires s[HEADER..TagsStart(|f.ends|, f.wide)] == words
    requires s[TagsStart(|f.ends|, f.wide)..BytesStart(|f.ends|, f.wide)] == f.tags
    requires s[BytesStart(|f.ends|, f.wide)..] == f.bytes
    ensures FieldsOf(s, o) == f
  {
    forall i | 0 <= i < |f.ends|
      ensures EndAt(s, f.wide, i, o) == f.ends[i]
    {
      WordRegion(f.ends, f.wide, o, s, words, i);
    }
    assert FieldsOf(s, o).ends == f.ends;
  }

  /** The count and width that a buffer's head names. */
  lemma {:induction false} HeadRead(s: seq<byte>, head: seq<byte>, n: nat, wide: bool, o: Order)
    requires n < WIDE_BIT && HEADER <= |s| && s[..HEADER] == head && head == Word(Head(n, wide), HEADER, o)
    ensures CountOf(s, o) == n && WideOf(s, o) == wide
  {
    HeadNames(n, wide, o);
    assert HeadOf(s, o) == Head(n, wide);
  }

  /** Reading a frame gives back what was laid out. */
  lemma {:induction false} FieldsOfFrame(f: Fields, o: Order, s: seq<byte>)
    requires f.Ok() && s == Frame(f, o)
    ensures HeadFits(s, o) && FieldsOf(s, o) == f
  {
    FrameRegions(f, o, s);
    HeadRead(s, s[..HEADER], |f.ends|, f.wide, o);
    RegionsSay(f, o, s, WordsOf(f.ends, f.wide, o));
  }

  lemma {:induction false} WordsReadStep(s: seq<byte>, front: seq<nat>, x: nat, wide: bool, o: Order, lo: nat, mid: nat, hi: nat)
    requires lo <= mid <= hi <= |s| && WordsOf(front, wide, o) == s[lo..mid] && Word(x, Width(wide), o) == s[mid..hi]
    ensures WordsOf(front + [x], wide, o) == s[lo..hi]
  {
    WordsSnoc(front, x, wide, o);
    Meet(s, lo, mid, hi);
  }

  lemma {:induction false} WordsRead(s: seq<byte>, xs: seq<nat>, wide: bool, o: Order, k: nat)
    requires k <= |xs| && TagsStart(|xs|, wide) <= |s|
    requires forall i :: 0 <= i < |xs| ==> xs[i] == EndAt(s, wide, i, o)
    ensures WordsOf(xs[..k], wide, o) == s[HEADER..TagsStart(k, wide)]
  {
    if k > 0 {
      WordsRead(s, xs, wide, o, k - 1);
      EndWord(s, wide, k - 1, o);
      WordsReadStep(s, xs[..k - 1], xs[k - 1], wide, o, HEADER, TagsStart(k - 1, wide), TagsStart(k, wide));
      Snoc(xs, k);
    }
  }

  /** Laying out what a buffer says rewrites the buffer. */
  lemma {:induction false} FrameOfFields(s: seq<byte>, o: Order)
    requires HeadFits(s, o)
    ensures FieldsOf(s, o).Ok() && Frame(FieldsOf(s, o), o) == s
  {
    var f := FieldsOf(s, o);
    var n := |f.ends|;
    HeadWord(s, o);
    WordsRead(s, f.ends, f.wide, o, n);
    assert f.ends[..n] == f.ends;
    forall i | 0 <= i < n
      ensures f.ends[i] < Limit(f.wide)
    {
      EndWord(s, f.wide, i, o);
    }
    Joined(s, HEADER, TagsStart(n, f.wide), BytesStart(n, f.wide));
  }

  /** The frame in the other byte order differs only in the head and the words. */
  lemma {:induction false} FrameRest(f: Fields, o: Order, s: seq<byte>, t: seq<byte>)
    requires |f.ends| == |f.tags| && s == Frame(f, o) && t == Frame(f, o.Flip())
    ensures |s| == |t| && TagsStart(|f.ends|, f.wide) <= |s|
    ensures s[TagsStart(|f.ends|, f.wide)..] == t[TagsStart(|f.ends|, f.wide)..]
  {
    var k, m := TagsStart(|f.ends|, f.wide), BytesStart(|f.ends|, f.wide);
    FrameRegions(f, o, s);
    FrameRegions(f, o.Flip(), t);
    assert s[k..] == s[k..m] + s[m..];
    assert t[k..] == t[k..m] + t[m..];
  }

  /** Bytes of a buffer of n records and payload bytes, or 0 when that exceeds
      R's maximum vector length. No step leaves the range of size_t. */
  function TotalBytes(n: usize, payload: usize, wide: bool): (r: usize)
    ensures BytesStart(n, wide) + payload > XLEN_MAX ==> r == 0
    ensures BytesStart(n, wide) + payload <= XLEN_MAX ==> r == BytesStart(n, wide) + payload
    ensures r != 0 ==> HEADER <= r <= XLEN_MAX
  {
    var max: usize := XLEN_MAX;
    var perRecord: usize := Width(wide) + 1;
    if n > (max - HEADER) / perRecord then
      0
    else
      var meta: usize := HEADER + n * perRecord;
      if payload > max - meta then 0 else meta + payload
  }

  /** Every head that is written has bits 52 to 62 clear. */
  lemma {:induction false} HeadBitsClear(n: usize, payload: usize, wide: bool)
    requires TotalBytes(n, payload, wide) != 0
    ensures n < 0x10_0000_0000_0000
    ensures Head(n, wide) % WIDE_BIT / 0x10_0000_0000_0000 == 0
  {
    assert BytesStart(n, wide) + payload <= XLEN_MAX;
  }
}
