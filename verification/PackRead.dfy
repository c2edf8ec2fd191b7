/** Reading a filled charpack: views by range and by index, and R strings. */
module PackRead {
  import opened Records
  import opened RStrings
  import opened Words
  import opened PackLayout
  import opened PackRecords
  import opened PackState

  /** A view's pointer: null, the shared empty byte, or a place in the buffer. */
  datatype ViewPtr = Null | Empty | Place(at: nat)

  /** The view (p, len) of the buffer s shows record r. */
  ghost predicate Shows(s: seq<byte>, p: ViewPtr, r: Rec) {
    match r
    case NA => p == Null
    case Str(bytes, _) =>
      if bytes == [] then p == Empty
      else p.Place? && p.at + |bytes| <= |s| && s[p.at..p.at + |bytes|] == bytes
  }

  function LenOf(r: Rec): int {
    if r.NA? then NA_INTEGER else |r.bytes|
  }

  /** One record's view, written at j. A length is always written, the pointer
      and the encoding only when asked for. */
  method Put(tag: byte, begin: nat, end: nat, bytes: nat, j: nat,
             ptrs: array?<ViewPtr>, lens: array<int>, encs: array?<byte>)
    requires begin <= end && j < lens.Length
    requires (ptrs != null ==> j < ptrs.Length) && (encs != null ==> j < encs.Length)
    modifies ptrs, lens, encs
    ensures lens[j] == if tag == NA_TAG then NA_INTEGER else end - begin
    ensures ptrs != null ==> ptrs[j] == PtrOf(tag, begin, end, bytes)
    ensures encs != null ==> encs[j] == tag
    ensures forall k :: 0 <= k < lens.Length && k != j ==> lens[k] == old(lens[k])
    ensures ptrs != null ==> forall k :: 0 <= k < ptrs.Length && k != j ==> ptrs[k] == old(ptrs[k])
    ensures encs != null ==> forall k :: 0 <= k < encs.Length && k != j ==> encs[k] == old(encs[k])
  {
    var isNa := tag == NA_TAG;
    lens[j] := if isNa then NA_INTEGER else end - begin;
    if ptrs != null {
      ptrs[j] := if isNa then Null else if end == begin then Empty else Place(bytes + begin);
    }
    if encs != null {
      encs[j] := tag;
    }
  }

  /** Reads record i's bounds and tag, where they are in the buffer s. */
  method Bounds(raw: array<byte>, n: nat, wide: bool, i: nat, host: Order, ghost s: seq<byte>)
    returns (begin: nat, end: nat, tag: byte)
    requires raw[..] == s && i < n && BytesStart(n, wide) <= |s|
    ensures begin == if i == 0 then 0 else EndAt(s, wide, i - 1, host)
    ensures end == EndAt(s, wide, i, host)
    ensures tag == s[TagsStart(n, wide) + i]
  {
    begin := 0;
    if i > 0 {
      begin := ReadEnd(raw, wide, i - 1, host, false);
    }
    end := ReadEnd(raw, wide, i, host, false);
    tag := raw[TagsStart(n, wide) + i];
  }

  /** The view at j shows record r, as far as it was asked for. */
  ghost predicate Viewed(s: seq<byte>, r: Rec, j: nat, ptrs: array?<ViewPtr>, lens: array<int>, encs: array?<byte>)
    requires j < lens.Length && (ptrs != null ==> j < ptrs.Length) && (encs != null ==> j < encs.Length)
    reads ptrs, lens, encs
  {
    && lens[j] == LenOf(r)
    && (ptrs != null ==> Shows(s, ptrs[j], r))
    && (encs != null ==> encs[j] == r.Tag())
  }

  /** The pointer a reader makes of a record's bounds and tag. */
  function PtrOf(tag: byte, begin: nat, end: nat, bytes: nat): ViewPtr {
    if tag == NA_TAG then Null else if end == begin then Empty else Place(bytes + begin)
  }

  /** What a reader makes of a record in place shows it. */
  lemma {:induction false} PlaceShows(s: seq<byte>, n: nat, wide: bool, host: Order, i: nat, begin: nat, end: nat, r: Rec)
    requires i < n && RecordIn(s, n, wide, host, i, begin, end, r)
    ensures Shows(s, PtrOf(r.Tag(), begin, end, BytesStart(n, wide)), r)
    ensures LenOf(r) == if r.Tag() == NA_TAG then NA_INTEGER else end - begin
  {
  }

  /** Writes the view of record i at j and leaves every other view alone. */
  method ViewAt(raw: array<byte>, n: nat, wide: bool, host: Order, i: nat, j: nat,
                ptrs: array?<ViewPtr>, lens: array<int>, encs: array?<byte>, ghost s: seq<byte>,
                ghost from: nat, ghost to: nat, ghost r: Rec)
    requires raw[..] == s && i < n && RecordIn(s, n, wide, host, i, from, to, r) && encs != raw
    requires j < lens.Length && (ptrs != null ==> j < ptrs.Length) && (encs != null ==> j < encs.Length)
    modifies ptrs, lens, encs
    ensures Viewed(s, r, j, ptrs, lens, encs)
    ensures forall k :: 0 <= k < lens.Length && k != j ==> lens[k] == old(lens[k])
    ensures ptrs != null ==> forall k :: 0 <= k < ptrs.Length && k != j ==> ptrs[k] == old(ptrs[k])
    ensures encs != null ==> forall k :: 0 <= k < encs.Length && k != j ==> encs[k] == old(encs[k])
  {
    var begin, end, tag := Bounds(raw, n, wide, i, host, s);
    PlaceShows(s, n, wide, host, i, begin, end, r);
    Put(tag, begin, end, BytesStart(n, wide), j, ptrs, lens, encs);
  }

  ghost predicate Room(size: nat, ptrs: array?<ViewPtr>, lens: array<int>, encs: array?<byte>) {
    size <= lens.Length && (ptrs != null ==> size <= ptrs.Length) && (encs != null ==> size <= encs.Length)
  }

  /** Nothing past the first size views was written. */
  twostate predicate PastKept(size: nat, ptrs: array?<ViewPtr>, lens: array<int>, encs: array?<byte>)
    reads ptrs, lens, encs
  {
    && (forall k :: size <= k < lens.Length ==> lens[k] == old(lens[k]))
    && (ptrs != null ==> forall k :: size <= k < ptrs.Length ==> ptrs[k] == old(ptrs[k]))
    && (encs != null ==> forall k :: size <= k < encs.Length ==> encs[k] == old(encs[k]))
  }

  ghost predicate ViewedTo(s: seq<byte>, want: seq<Rec>, k: nat, ptrs: array?<ViewPtr>, lens: array<int>, encs: array?<byte>)
    requires Room(k, ptrs, lens, encs) && k <= |want|
    reads ptrs, lens, encs
  {
    forall j :: 0 <= j < k ==> Viewed(s, want[j], j, ptrs, lens, encs)
  }

  /** The view of record i, after j views of the records wanted. */
  method NextView(raw: array<byte>, n: nat, wide: bool, host: Order, i: nat, j: nat,
                  ptrs: array?<ViewPtr>, lens: array<int>, encs: array?<byte>,
                  ghost s: seq<byte>, ghost recs: seq<Rec>, ghost want: seq<Rec>)
    requires raw[..] == s && n == |recs| && RecordsIn(s, recs, wide, host)
    requires i < n && j < |want| && want[j] == recs[i] && Room(j + 1, ptrs, lens, encs) && encs != raw
    requires ViewedTo(s, want, j, ptrs, lens, encs)
    modifies ptrs, lens, encs
    ensures ViewedTo(s, want, j + 1, ptrs, lens, encs) && PastKept(j + 1, ptrs, lens, encs)
  {
    assert Here(i);
    ViewAt(raw, n, wide, host, i, j, ptrs, lens, encs, s, Start(recs, i), Start(recs, i + 1), want[j]);
  }

  /** The rest of a range, once its first views are written. */
  method RangeRest(raw: array<byte>, n: nat, wide: bool, host: Order, start: nat, done: nat, size: nat,
                   ptrs: array?<ViewPtr>, lens: array<int>, encs: array?<byte>,
                   ghost s: seq<byte>, ghost recs: seq<Rec>, ghost want: seq<Rec>)
    requires raw[..] == s && n == |recs| && RecordsIn(s, recs, wide, host)
    requires start + size <= |recs| && want == recs[start..start + size] && done <= size
    requires Room(size, ptrs, lens, encs) && encs != raw
    requires ViewedTo(s, want, done, ptrs, lens, encs)
    modifies ptrs, lens, encs
    ensures ViewedTo(s, want, size, ptrs, lens, encs) && PastKept(size, ptrs, lens, encs)
  {
    var j := done;
    while j < size
      invariant j <= size && raw[..] == s
      invariant ViewedTo(s, want, j, ptrs, lens, encs) && PastKept(size, ptrs, lens, encs)
    {
      NextView(raw, n, wide, host, start + j, j, ptrs, lens, encs, s, recs, want);
      j := j + 1;
    }
  }

  method RangeLoop(raw: array<byte>, n: nat, wide: bool, host: Order, start: nat, size: nat,
                   ptrs: array?<ViewPtr>, lens: array<int>, encs: array?<byte>,
                   ghost s: seq<byte>, ghost recs: seq<Rec>, ghost want: seq<Rec>)
    requires raw[..] == s && n == |recs| && RecordsIn(s, recs, wide, host)
    requires start + size <= |recs| && want == recs[start..start + size]
    requires Room(size, ptrs, lens, encs) && encs != raw
    modifies ptrs, lens, encs
    ensures ViewedTo(s, want, size, ptrs, lens, encs) && PastKept(size, ptrs, lens, encs)
  {
    var j := 0;
    // Record 0 has no previous end, so it is read apart.
    if size > 0 && start == 0 {
      NextView(raw, n, wide, host, start, j, ptrs, lens, encs, s, recs, want);
      j := 1;
    }
    RangeRest(raw, n, wide, host, start, j, size, ptrs, lens, encs, s, recs, want);
  }

  /** The views of a range of records: each shows its record, as far as asked for. */
  method RangeAccess(raw: array<byte>, host: Order, start: nat, size: nat,
                     ptrs: array?<ViewPtr>, lens: array<int>, encs: array?<byte>, ghost recs: seq<Rec>, ghost w: bool)
    requires Holds(raw[..], recs, w, host) && start + size <= |recs|
    requires Room(size, ptrs, lens, encs) && encs != raw
    modifies ptrs, lens, encs
    ensures ViewedTo(raw[..], recs[start..start + size], size, ptrs, lens, encs) && PastKept(size, ptrs, lens, encs)
  {
    var n, wide := ReadCount(raw, host, recs, w);
    HoldsRecords(raw[..], recs, wide, host);
    RangeLoop(raw, n, wide, host, start, size, ptrs, lens, encs, raw[..], recs, recs[start..start + size]);
  }

  method IndexLoop(raw: array<byte>, n: nat, wide: bool, host: Order, indices: seq<nat>,
                   ptrs: array?<ViewPtr>, lens: array<int>, encs: array?<byte>,
                   ghost s: seq<byte>, ghost recs: seq<Rec>, ghost want: seq<Rec>)
    requires raw[..] == s && n == |recs| && RecordsIn(s, recs, wide, host)
    requires |want| == |indices| && forall j :: 0 <= j < |indices| ==> indices[j] < |recs| && want[j] == recs[indices[j]]
    requires Room(|indices|, ptrs, lens, encs) && encs != raw
    modifies ptrs, lens, encs
    ensures ViewedTo(s, want, |indices|, ptrs, lens, encs) && PastKept(|indices|, ptrs, lens, encs)
  {
    var j := 0;
    while j < |indices|
      invariant j <= |indices| && raw[..] == s
      invariant ViewedTo(s, want, j, ptrs, lens, encs) && PastKept(|indices|, ptrs, lens, encs)
    {
      NextView(raw, n, wide, host, indices[j], j, ptrs, lens, encs, s, recs, want);
      j := j + 1;
    }
  }

  /** The views of listed records: each shows its record, as far as asked for. */
  method IndexAccess(raw: array<byte>, host: Order, indices: seq<nat>,
                     ptrs: array?<ViewPtr>, lens: array<int>, encs: array?<byte>, ghost recs: seq<Rec>, ghost w: bool)
    requires Holds(raw[..], recs, w, host)
    requires forall j :: 0 <= j < |indices| ==> indices[j] < |recs|
    requires Room(|indices|, ptrs, lens, encs) && encs != raw
    modifies ptrs, lens, encs
    ensures forall j :: 0 <= j < |indices| ==> Viewed(raw[..], recs[indices[j]], j, ptrs, lens, encs)
    ensures PastKept(|indices|, ptrs, lens, encs)
  {
    var n, wide := ReadCount(raw, host, recs, w);
    HoldsRecords(raw[..], recs, wide, host);
    ghost var want := seq(|indices|, j requires 0 <= j < |indices| => recs[indices[j]]);
    IndexLoop(raw, n, wide, host, indices, ptrs, lens, encs, raw[..], recs, want);
    forall j | 0 <= j < |indices|
      ensures Viewed(raw[..], recs[indices[j]], j, ptrs, lens, encs)
    {
      assert Viewed(raw[..], want[j], j, ptrs, lens, encs);
    }
  }

  method StringAt(raw: array<byte>, n: nat, wide: bool, host: Order, i: nat, begin: nat,
                  ghost s: seq<byte>, ghost to: nat, ghost r: Rec)
    returns (x: RString, end: nat)
    requires raw[..] == s && i < n && RecordIn(s, n, wide, host, i, begin, to, r)
    ensures x == Element(r) && end == to
  {
    end := ReadEnd(raw, wide, i, host, false);
    var tag := raw[TagsStart(n, wide) + i];
    if tag == NA_TAG {
      x := NaString;
    } else {
      var bytes := raw[BytesStart(n, wide) + begin..BytesStart(n, wide) + end];
      assert bytes == s[BytesStart(n, wide) + begin..BytesStart(n, wide) + end];
      x := MakeChar(bytes, BaseMark(tag));
    }
  }

  method StringsLoop(raw: array<byte>, n: nat, wide: bool, host: Order, out: array<RString>,
                     ghost s: seq<byte>, ghost recs: seq<Rec>, ghost want: seq<RString>)
    requires raw[..] == s && n == |recs| == |want| == out.Length && RecordsIn(s, recs, wide, host)
    requires forall k :: 0 <= k < n ==> want[k] == Element(recs[k])
    modifies out
    ensures out[..] == want
  {
    var begin := 0;
    var i := 0;
    while i < n
      invariant i <= n && begin == Start(recs, i) && raw[..] == s
      invariant out[..i] == want[..i]
    {
      assert Here(i);
      var x, end := StringAt(raw, n, wide, host, i, begin, s, Start(recs, i + 1), recs[i]);
      out[i] := x;
      begin := end;
      i := i + 1;
    }
  }

  /** The strings of a filled buffer, as a new R character vector. */
  method Strings(raw: array<byte>, host: Order, ghost recs: seq<Rec>, ghost w: bool) returns (out: array<RString>)
    requires Holds(raw[..], recs, w, host)
    ensures fresh(out) && out[..] == Elements(recs)
  {
    var n, wide := ReadCount(raw, host, recs, w);
    HoldsRecords(raw[..], recs, wide, host);
    out := new RString[n](_ => NaString);
    StringsLoop(raw, n, wide, host, out, raw[..], recs, Elements(recs));
  }
}
