/** Filling a charpack buffer from caller-owned views, or from byte slices cut by
    a list of lengths. */
module PackFill {
  import opened Records
  import opened Words
  import opened Seqs
  import opened Memory
  import opened PackLayout
  import opened PackRecords

  datatype FillError =
    | NotUnfilled
    | NegativeCount
    | NullInput
    | NullSlices
    | InvalidEncoding(index: nat)
    | NegativeLength(index: nat)
    | SizeOverflow
    | TooLarge
    | NullSlice(slice: nat)
    | SliceMismatch(sliced: nat, needed: nat)

  /** The caller's arrays. Slices come without pointers. A pointer is null or
      addresses some bytes. */
  datatype Input = Input(ptrs: Option<seq<Option<seq<byte>>>>, lengths: seq<int>, encodings: seq<byte>) {
    /** What C callers promise: arrays of one length, and readable bytes behind every record. */
    ghost predicate Readable() {
      && |lengths| == |encodings|
      && (forall i :: 0 <= i < |lengths| ==> NA_INTEGER <= lengths[i] <= STRING_MAX)
      && (ptrs.Some? ==>
            && |ptrs.value| == |lengths|
            && forall i :: 0 <= i < |lengths| && !IsNa(i) && lengths[i] > 0 ==> |ptrs.value[i].value| >= lengths[i])
    }

    predicate IsNa(i: nat)
      requires i < |lengths| == |encodings| && (ptrs.Some? ==> |ptrs.value| == |lengths|)
    {
      (ptrs.Some? && ptrs.value[i].None?) || lengths[i] == NA_INTEGER || encodings[i] == NA_TAG
    }

    /** Record i passes the checks made before anything is allocated. */
    predicate Good(i: nat)
      requires i < |lengths| == |encodings| && (ptrs.Some? ==> |ptrs.value| == |lengths|)
    {
      ValidTag(encodings[i]) && (IsNa(i) || lengths[i] >= 0)
    }

    function Size(i: nat): nat
      requires i < |lengths| == |encodings| && (ptrs.Some? ==> |ptrs.value| == |lengths|)
    {
      if IsNa(i) || lengths[i] < 0 then 0 else lengths[i]
    }

    /** The payload the first k records need. */
    function Needed(k: nat): nat
      requires k <= |lengths| == |encodings| && (ptrs.Some? ==> |ptrs.value| == |lengths|)
    {
      if k == 0 then 0 else Needed(k - 1) + Size(k - 1)
    }

    ghost predicate AllGood(k: nat)
      requires k <= |lengths| && Readable()
    {
      forall i :: 0 <= i < k ==> Good(i)
    }
  }

  /** The input describes recs: the same tags and lengths. */
  ghost predicate Describes(a: Input, recs: seq<Rec>) {
    && a.Readable() && |recs| == |a.lengths|
    && forall i :: 0 <= i < |recs| ==>
         && a.Good(i) && recs[i].Valid()
         && recs[i].NA? == a.IsNa(i)
         && (!a.IsNa(i) ==> recs[i].tag == a.encodings[i] && |recs[i].bytes| == a.lengths[i])
  }

  lemma {:induction false} NeededIsStart(a: Input, recs: seq<Rec>, k: nat)
    requires Describes(a, recs) && k <= |recs|
    ensures a.Needed(k) == Start(recs, k)
  {
    if k > 0 {
      NeededIsStart(a, recs, k - 1);
      assert a.Good(k - 1);
    }
  }

  lemma {:induction false} NeededMonotone(a: Input, i: nat, k: nat)
    requires a.Readable() && i <= k <= |a.lengths|
    ensures a.Needed(i) <= a.Needed(k)
  {
    if i < k {
      NeededMonotone(a, i, k - 1);
    }
  }

  /** Every record before k passes, and record k fails with error e. */
  ghost predicate FailsAt(a: Input, k: nat, e: FillError)
    requires a.Readable() && k < |a.lengths|
  {
    && a.AllGood(k) && a.Needed(k) < U64_LIMIT
    && match e
       case InvalidEncoding(i) => i == k && !ValidTag(a.encodings[k])
       case NegativeLength(i) => i == k && ValidTag(a.encodings[k]) && !a.IsNa(k) && a.lengths[k] < 0
       case SizeOverflow => a.Good(k) && a.Needed(k + 1) >= U64_LIMIT
       case _ => false
  }

  ghost predicate PayloadPasses(a: Input)
    requires a.Readable()
  {
    a.AllGood(|a.lengths|) && a.Needed(|a.lengths|) < U64_LIMIT
  }

  ghost predicate PayloadFails(a: Input, e: FillError)
    requires a.Readable()
  {
    exists k :: 0 <= k < |a.lengths| && FailsAt(a, k, e)
  }

  /** Checks lengths and encodings and returns the payload size. An error names
      the first record that fails, or the size that no size_t holds. */
  method CheckedPayload(a: Input) returns (r: Result<usize, FillError>)
    requires a.Readable()
    ensures r.Ok? <==> PayloadPasses(a)
    ensures r.Ok? ==> r.value == a.Needed(|a.lengths|)
    ensures r.Err? ==> PayloadFails(a, r.error)
  {
    var total: usize := 0;
    var i := 0;
    while i < |a.lengths|
      invariant i <= |a.lengths| && a.AllGood(i) && total == a.Needed(i)
    {
      r := Err(SizeOverflow);
      if !ValidTag(a.encodings[i]) {
        r := Err(InvalidEncoding(i));
        assert !a.Good(i) && FailsAt(a, i, r.error);
        return;
      }
      if !a.IsNa(i) {
        if a.lengths[i] < 0 {
          r := Err(NegativeLength(i));
          assert !a.Good(i) && FailsAt(a, i, r.error);
          return;
        }
        if total > U64_LIMIT - 1 - a.lengths[i] {
          NeededMonotone(a, i + 1, |a.lengths|);
          assert FailsAt(a, i, r.error);
          return;
        }
        total := total + a.lengths[i];
      }
      i := i + 1;
    }
    return Ok(total);
  }

  /** The image has the end offsets and tags the input asks for. */
  ghost predicate Wanted(a: Input, image: seq<byte>, wide: bool, host: Order) {
    && a.Readable() && BytesStart(|a.lengths|, wide) <= |image|
    && forall i :: 0 <= i < |a.lengths| ==> WantedAt(a, image, wide, host, i)
  }

  ghost predicate WantedAt(a: Input, image: seq<byte>, wide: bool, host: Order, i: nat)
    requires a.Readable() && i < |a.lengths| && BytesStart(|a.lengths|, wide) <= |image|
  {
    && a.Good(i) && a.Needed(i + 1) < Limit(wide)
    && image[HEADER + At(wide, i)..HEADER + At(wide, i + 1)] == Word(a.Needed(i + 1), Width(wide), host)
    && image[TagsStart(|a.lengths|, wide) + i] == if a.IsNa(i) then NA_TAG else a.encodings[i]
  }

  method WriteRecord(a: Input, raw: array<byte>, wide: bool, host: Order, i: nat, end: usize, ghost image: seq<byte>)
    requires a.Readable() && i < |a.lengths| && BytesStart(|a.lengths|, wide) <= raw.Length == |image|
    requires WantedAt(a, image, wide, host, i) && end == a.Needed(i + 1)
    modifies raw
    ensures Matches(raw, image, HEADER + At(wide, i), HEADER + At(wide, i + 1))
    ensures raw[TagsStart(|a.lengths|, wide) + i] == image[TagsStart(|a.lengths|, wide) + i]
    ensures forall k | 0 <= k < raw.Length :: !(HEADER + At(wide, i) <= k < HEADER + At(wide, i + 1)) ==>
              k != TagsStart(|a.lengths|, wide) + i ==> raw[k] == old(raw[k])
  {
    WritePiece(raw, HEADER + At(wide, i), Word(end, Width(wide), host), image);
    raw[TagsStart(|a.lengths|, wide) + i] := if a.IsNa(i) then NA_TAG else a.encodings[i];
  }

  /** Addition in the type of an end offset. */
  function AddEnd(end: nat, size: nat, wide: bool): usize {
    (end + size) % (if wide then U64_LIMIT else U32_LIMIT)
  }

  lemma {:induction false} NoWrap(end: nat, size: nat, wide: bool)
    ensures AddEnd(end, size, wide) == end + size <==> end + size < Limit(wide)
  {
  }

  /** Writes the end offsets and tags. The running end has the width of an end
      offset and never wraps. */
  method WriteRecords(a: Input, raw: array<byte>, wide: bool, host: Order, ghost image: seq<byte>)
    requires |image| == raw.Length && Wanted(a, image, wide, host)
    requires Matches(raw, image, 0, HEADER)
    modifies raw
    ensures Matches(raw, image, 0, BytesStart(|a.lengths|, wide))
  {
    var n := |a.lengths|;
    var end: usize := 0;
    var i := 0;
    while i < n
      invariant i <= n && end == a.Needed(i)
      invariant Matches(raw, image, 0, HEADER + At(wide, i))
      invariant Matches(raw, image, TagsStart(n, wide), TagsStart(n, wide) + i)
    {
      assert WantedAt(a, image, wide, host, i);
      NoWrap(end, a.Size(i), wide);
      end := AddEnd(end, a.Size(i), wide);
      WriteRecord(a, raw, wide, host, i, end, image);
      i := i + 1;
    }
  }

  lemma {:induction false} ImageWanted(a: Input, recs: seq<Rec>, wide: bool, host: Order, image: seq<byte>, i: nat)
    requires Describes(a, recs) && Holds(image, recs, wide, host) && i < |recs|
    ensures |image| == BytesStart(|recs|, wide) + Total(recs)
    ensures WantedAt(a, image, wide, host, i)
  {
    HoldsFields(image, recs, wide, host);
    ImageWord(recs, wide, host, image, i);
    EndInPlace(image, recs, wide, host, i);
    EndWanted(a, recs, i);
    TagWanted(a, recs, i);
  }

  lemma {:induction false} EndWanted(a: Input, recs: seq<Rec>, i: nat)
    requires Describes(a, recs) && i < |recs|
    ensures a.Needed(i + 1) == Start(recs, i + 1) <= Total(recs)
  {
    NeededIsStart(a, recs, i + 1);
    StartMonotone(recs, i + 1, |recs|);
  }

  lemma {:induction false} TagWanted(a: Input, recs: seq<Rec>, i: nat)
    requires Describes(a, recs) && i < |recs|
    ensures a.Good(i) && recs[i].Tag() == if a.IsNa(i) then NA_TAG else a.encodings[i]
  {
  }

  /** Allocates a buffer and writes its head, end offsets and tags. */
  method AllocData1(a: Input, payload: usize, forceWide: bool, host: Order, ghost recs: seq<Rec>)
    returns (r: Result<array<byte>, FillError>, ghost image: seq<byte>)
    requires Describes(a, recs) && payload == Total(recs)
    ensures image == Image(recs, forceWide || NeedsWide(payload), host)
    ensures r == Err(TooLarge) || r.Ok?
    ensures r.Ok? <==> BytesStart(|recs|, forceWide || NeedsWide(payload)) + payload <= XLEN_MAX
    ensures r.Ok? ==> Holds(image, recs, forceWide || NeedsWide(payload), host)
    ensures r.Ok? ==>
              && fresh(r.value) && r.value.Length == |image| == BytesStart(|recs|, forceWide || NeedsWide(payload)) + payload
              && Packable(recs, forceWide || NeedsWide(payload))
              && Matches(r.value, image, 0, BytesStart(|recs|, forceWide || NeedsWide(payload)))
  {
    var n := |a.lengths|;
    var wide := forceWide || NeedsWide(payload);
    image := Image(recs, wide, host);
    if n >= XLEN_MAX {
      return Err(TooLarge), image;
    }
    var total := TotalBytes(n, payload, wide);
    if total == 0 {
      return Err(TooLarge), image;
    }
    assert Packable(recs, wide) by {
      forall i | 0 <= i < |recs|
        ensures recs[i].Valid()
      {
        assert a.Good(i);
      }
    }
    HoldsImage(image, recs, wide, host);
    HoldsFields(image, recs, wide, host);
    ImageHead(recs, wide, host, image);
    var raw := new byte[total];
    WritePiece(raw, 0, Word(Head(n, wide), HEADER, host), image);
    forall i | 0 <= i < n
      ensures WantedAt(a, image, wide, host, i)
    {
      ImageWanted(a, recs, wide, host, image, i);
    }
    WriteRecords(a, raw, wide, host, image);
    return Ok(raw), image;
  }

  /** The records a list of views denotes. */
  function ViewRecs(a: Input): (recs: seq<Rec>)
    requires |a.lengths| == |a.encodings| && a.ptrs.Some? && |a.ptrs.value| == |a.lengths|
    ensures |recs| == |a.lengths|
  {
    seq(|a.lengths|, i requires 0 <= i < |a.lengths| => ViewRec(a, i))
  }

  function ViewRec(a: Input, i: nat): Rec
    requires i < |a.lengths| == |a.encodings| && a.ptrs.Some? && |a.ptrs.value| == |a.lengths|
  {
    if a.IsNa(i) then NA
    else Str(if 0 < a.lengths[i] <= |a.ptrs.value[i].value| then a.ptrs.value[i].value[..a.lengths[i]] else [],
             a.encodings[i])
  }

  lemma {:induction false} ViewRecsDescribed(a: Input)
    requires a.Readable() && a.ptrs.Some? && a.AllGood(|a.lengths|)
    ensures Describes(a, ViewRecs(a))
  {
    forall i | 0 <= i < |a.lengths|
      ensures a.Good(i) && ViewRec(a, i).Valid()
      ensures !a.IsNa(i) ==> |ViewRec(a, i).bytes| == a.lengths[i]
    {
      assert a.Good(i);
    }
  }

  /** The buffer of such a payload is no larger than a raw vector may be. */
  predicate Fits(n: nat, payload: nat, forceWide: bool) {
    BytesStart(n, forceWide || NeedsWide(payload)) + payload <= XLEN_MAX
  }

  /** A call that fills from views: each array is null or given, and none is read when n is 0. */
  datatype ViewCall = ViewCall(n: int, ptrs: Option<seq<Option<seq<byte>>>>, lengths: Option<seq<int>>, encodings: Option<seq<byte>>,
                               forceWide: bool) {
    predicate Given() {
      ptrs.Some? && lengths.Some? && encodings.Some?
    }

    /** The views the call denotes. */
    function Views(): Input {
      if n > 0 && Given() then Input(ptrs, lengths.value, encodings.value) else Input(Some([]), [], [])
    }

    /** What C callers promise: n entries in each array, and readable bytes behind every view. */
    ghost predicate Callable() {
      n > 0 && Given() ==>
        && n == |ptrs.value| == |lengths.value| == |encodings.value|
        && forall i :: 0 <= i < n ==>
             && NA_INTEGER <= lengths.value[i] <= STRING_MAX
             && (ptrs.value[i].Some? && encodings.value[i] != NA_TAG ==> lengths.value[i] <= |ptrs.value[i].value|)
    }

    function Recs(): seq<Rec>
      requires Callable()
    {
      CallableViews(this);
      ViewRecs(Views())
    }

    /** The records are, entry by entry, what the arrays say. */
    ghost predicate Lists(recs: seq<Rec>)
      requires Callable() && (n > 0 ==> Given())
    {
      && |recs| == (if n > 0 then n else 0)
      && forall i :: 0 <= i < |recs| ==>
           if ptrs.value[i].None? || lengths.value[i] == NA_INTEGER || encodings.value[i] == NA_TAG then recs[i] == NA
           else 0 <= lengths.value[i] && recs[i] == Str(ptrs.value[i].value[..lengths.value[i]], encodings.value[i])
    }

    /** The lengths of the first k entries that are not NA, added up. */
    ghost function Before(k: nat): nat
      requires Callable() && Given() && k <= n
    {
      if k == 0 then 0
      else
        var ptr, len, enc := ptrs.value[k - 1], lengths.value[k - 1], encodings.value[k - 1];
        Before(k - 1) + if ptr.None? || enc == NA_TAG || len < 0 then 0 else len
    }

    /** View i is in the bytes right after all views before it. */
    ghost predicate Follows(bytes: seq<byte>, i: nat)
      requires Callable() && Given() && i < n
    {
      ptrs.value[i].Some? && encodings.value[i] != NA_TAG && lengths.value[i] >= 0 ==>
        && Before(i) + lengths.value[i] <= |bytes|
        && bytes[Before(i)..Before(i) + lengths.value[i]] == ptrs.value[i].value[..lengths.value[i]]
    }

    /** The bytes are those of the views in order. */
    ghost predicate Orders(bytes: seq<byte>)
      requires Callable() && (n > 0 ==> Given())
    {
      if n <= 0 then bytes == [] else |bytes| == Before(n) && forall i :: 0 <= i < n ==> Follows(bytes, i)
    }

    /** Entry i is one that a fill accepts. */
    ghost predicate Passes(i: nat)
      requires i < n && Given() && Callable()
    {
      && ValidTag(encodings.value[i])
      && (ptrs.value[i].None? || lengths.value[i] == NA_INTEGER || encodings.value[i] == NA_TAG || lengths.value[i] >= 0)
    }

    /** An error that names an entry names the first one that a fill does not accept, and why. */
    ghost predicate NamesFirst(e: FillError)
      requires Callable()
    {
      match e
      case InvalidEncoding(i) =>
        i < n && Given() && !ValidTag(encodings.value[i]) && forall j :: 0 <= j < i ==> Passes(j)
      case NegativeLength(i) =>
        && i < n && Given() && ValidTag(encodings.value[i]) && encodings.value[i] != NA_TAG
        && ptrs.value[i].Some? && lengths.value[i] < 0 && lengths.value[i] != NA_INTEGER
        && forall j :: 0 <= j < i ==> Passes(j)
      case _ => true
    }

    ghost predicate Accepted()
      requires Callable()
    {
      CallableViews(this);
      n >= 0 && (n > 0 ==> Given()) && PayloadPasses(Views()) && Fits(n, Views().Needed(n), forceWide)
    }

    /** The error of a call that is not accepted: the first check that fails. */
    ghost predicate Refused(e: FillError)
      requires Callable()
    {
      CallableViews(this);
      if n < 0 then e == NegativeCount
      else if n > 0 && !Given() then e == NullInput
      else if !PayloadPasses(Views()) then PayloadFails(Views(), e)
      else !Fits(n, Views().Needed(n), forceWide) && e == TooLarge
    }

    predicate Wide()
      requires Callable()
    {
      forceWide || NeedsWide(Total(Recs()))
    }
  }

  lemma {:induction false} CallableViews(c: ViewCall)
    requires c.Callable()
    ensures c.Views().Readable() && c.Views().ptrs.Some? && |c.Views().lengths| == if c.n > 0 && c.Given() then c.n else 0
  {
  }

  lemma {:induction false} PassesIsGood(c: ViewCall, i: nat)
    requires c.Callable() && c.Given() && i < c.n
    ensures i < |c.Views().lengths| == |c.Views().encodings| && c.Views().ptrs.Some? && |c.Views().ptrs.value| == |c.Views().lengths|
    ensures c.Passes(i) <==> c.Views().Good(i)
    ensures c.Before(i + 1) == c.Before(i) + c.Views().Size(i)
  {
  }

  lemma {:induction false} BeforeIsNeeded(c: ViewCall, k: nat)
    requires c.Callable() && c.Given() && k <= c.n
    ensures c.Views().Readable() && k <= |c.Views().lengths| && c.Before(k) == c.Views().Needed(k)
  {
    CallableViews(c);
    if k > 0 {
      PassesIsGood(c, k - 1);
      BeforeIsNeeded(c, k - 1);
    }
  }

  /** A call is accepted exactly when no count or array is missing, every entry
      passes and a raw vector holds the head, the end offsets, the tags and the bytes. */
  lemma {:induction false} AcceptedExactly(c: ViewCall)
    requires c.Callable()
    ensures c.Accepted() <==>
            && c.n >= 0 && (c.n > 0 ==> c.Given() && forall i :: 0 <= i < c.n ==> c.Passes(i))
            && var bytes := if c.n > 0 then c.Before(c.n) else 0;
               8 + c.n * (if c.forceWide || bytes > 0xffff_ffff then 8 else 4) + c.n + bytes <= 0x10_0000_0000_0000
  {
    CallableViews(c);
    var a := c.Views();
    if c.n > 0 && c.Given() {
      BeforeIsNeeded(c, c.n);
      if forall i :: 0 <= i < c.n ==> c.Passes(i) {
        forall i | 0 <= i < c.n
          ensures a.Good(i)
        {
          PassesIsGood(c, i);
        }
      }
      if a.AllGood(c.n) {
        forall i | 0 <= i < c.n
          ensures c.Passes(i)
        {
          PassesIsGood(c, i);
        }
      }
    }
  }

  /** The views of an accepted call denote what its arrays say. */
  lemma {:induction false} ViewsListed(c: ViewCall)
    requires c.Callable() && (c.n > 0 ==> c.Given()) && c.Views().Readable() && c.Views().AllGood(|c.Views().lengths|)
    ensures c.Lists(c.Recs())
  {
    forall i | 0 <= i < c.n
      ensures
        if c.ptrs.value[i].None? || c.lengths.value[i] == NA_INTEGER || c.encodings.value[i] == NA_TAG then c.Recs()[i] == NA
        else 0 <= c.lengths.value[i] && c.Recs()[i] == Str(c.ptrs.value[i].value[..c.lengths.value[i]], c.encodings.value[i])
    {
      assert c.Views().Good(i) && c.Recs()[i] == ViewRec(c.Views(), i);
    }
  }

  /** An entry that fails is the first in the arrays to fail. */
  lemma {:induction false} FirstNamed(c: ViewCall, k: nat, e: FillError)
    requires c.Callable() && (c.n > 0 ==> c.Given()) && c.Views().Readable() && k < |c.Views().lengths| && FailsAt(c.Views(), k, e)
    ensures c.NamesFirst(e)
  {
    forall j | 0 <= j < k
      ensures c.Passes(j)
    {
      assert c.Views().Good(j);
    }
  }

  /** Builds the buffer of the records the views denote, or says why not. */
  method FillViews(c: ViewCall, host: Order) returns (r: Result<array<byte>, FillError>)
    requires c.Callable()
    ensures r.Ok? <==> c.Accepted()
    ensures r.Err? ==> c.Refused(r.error) && c.NamesFirst(r.error)
    ensures r.Ok? ==> c.Lists(c.Recs())
    ensures r.Ok? ==> fresh(r.value) && r.value.Length <= XLEN_MAX && Holds(r.value[..], c.Recs(), c.Wide(), host)
  {
    if c.n < 0 {
      return Err(NegativeCount);
    }
    if c.n > 0 && (c.ptrs.None? || c.lengths.None? || c.encodings.None?) {
      return Err(NullInput);
    }
    CallableViews(c);
    r := BuildFromViews(c.Views(), c.forceWide, host);
    if r.Ok? {
      ViewsListed(c);
    } else if !PayloadPasses(c.Views()) {
      var k :| 0 <= k < |c.Views().lengths| && FailsAt(c.Views(), k, r.error);
      FirstNamed(c, k, r.error);
    }
  }

  method BuildFromViews(a: Input, forceWide: bool, host: Order) returns (r: Result<array<byte>, FillError>)
    requires a.Readable() && a.ptrs.Some?
    ensures r.Ok? <==> PayloadPasses(a) && Fits(|a.lengths|, a.Needed(|a.lengths|), forceWide)
    ensures r.Err? ==> if !PayloadPasses(a) then PayloadFails(a, r.error) else r.error == TooLarge
    ensures r.Ok? ==> fresh(r.value) && r.value.Length <= XLEN_MAX && Holds(r.value[..], ViewRecs(a), forceWide || NeedsWide(Total(ViewRecs(a))), host)
  {
    var checked := CheckedPayload(a);
    if checked.Err? {
      return Err(checked.error);
    }
    ghost var recs := ViewRecs(a);
    ViewRecsDescribed(a);
    NeededIsStart(a, recs, |a.lengths|);
    var made, image := AllocData1(a, checked.value, forceWide, host, recs);
    if made.Err? {
      return made;
    }
    var raw := made.value;
    CopyViews(a, raw, forceWide || NeedsWide(checked.value), host, recs, image);
    assert raw[..] == image;
    return Ok(raw);
  }

  lemma {:induction false} ViewPiece(a: Input, recs: seq<Rec>, wide: bool, host: Order, image: seq<byte>, i: nat)
    requires Describes(a, recs) && a.ptrs.Some? && recs == ViewRecs(a) && i < |recs|
    requires Holds(image, recs, wide, host)
    ensures |image| == BytesStart(|recs|, wide) + Total(recs) && Start(recs, i + 1) <= Total(recs)
    ensures a.IsNa(i) || a.lengths[i] == 0 ==> Start(recs, i + 1) == Start(recs, i)
    ensures !a.IsNa(i) && a.lengths[i] != 0 ==>
              && 0 < a.lengths[i] <= |a.ptrs.value[i].value|
              && Start(recs, i + 1) == Start(recs, i) + a.lengths[i]
              && var at := BytesStart(|recs|, wide) + Start(recs, i);
                 image[at..at + a.lengths[i]] == a.ptrs.value[i].value[..a.lengths[i]]
  {
    ImageSpan(recs, wide, host, image, i);
    assert a.Good(i) && recs[i] == ViewRec(a, i);
  }

  method CopyView(a: Input, raw: array<byte>, wide: bool, host: Order, i: nat, dest: nat,
                  ghost recs: seq<Rec>, ghost image: seq<byte>)
    returns (next: nat)
    requires Describes(a, recs) && a.ptrs.Some? && recs == ViewRecs(a) && i < |recs|
    requires Holds(image, recs, wide, host) && |image| == raw.Length
    requires dest == BytesStart(|recs|, wide) + Start(recs, i)
    requires dest <= raw.Length && Matches(raw, image, 0, dest)
    modifies raw
    ensures next == BytesStart(|recs|, wide) + Start(recs, i + 1)
    ensures next <= raw.Length && Matches(raw, image, 0, next)
  {
    ViewPiece(a, recs, wide, host, image, i);
    next := dest;
    if !a.IsNa(i) && a.lengths[i] != 0 {
      WritePiece(raw, dest, a.ptrs.value[i].value[..a.lengths[i]], image);
      next := dest + a.lengths[i];
    }
  }

  /** Copies the bytes of the views, end to end. */
  method CopyViews(a: Input, raw: array<byte>, wide: bool, host: Order, ghost recs: seq<Rec>, ghost image: seq<byte>)
    requires Describes(a, recs) && a.ptrs.Some? && recs == ViewRecs(a)
    requires Holds(image, recs, wide, host) && |image| == raw.Length == BytesStart(|recs|, wide) + Total(recs)
    requires Matches(raw, image, 0, BytesStart(|recs|, wide))
    modifies raw
    ensures Matches(raw, image, 0, raw.Length)
  {
    var n := |a.lengths|;
    var dest := BytesStart(n, wide);
    var i := 0;
    while i < n
      invariant i <= n && dest == BytesStart(n, wide) + Start(recs, i)
      invariant dest <= raw.Length && Matches(raw, image, 0, dest)
    {
      dest := CopyView(a, raw, wide, host, i, dest, recs, image);
      i := i + 1;
    }
  }

  // Slices.

  /** A slice: null, or at least size readable bytes. */
  datatype Slice = Slice(ptr: Option<seq<byte>>, size: usize) {
    predicate Readable() {
      size > 0 && ptr.Some? ==> |ptr.value| >= size
    }

    function Taken(): seq<byte> {
      if ptr.Some? && size <= |ptr.value| then ptr.value[..size] else []
    }
  }

  /** The bytes of the first k slices, end to end. */
  function JoinedBytes(slices: seq<Slice>, k: nat): seq<byte>
    requires k <= |slices|
  {
    if k == 0 then [] else JoinedBytes(slices, k - 1) + slices[k - 1].Taken()
  }

  function Sliced(slices: seq<Slice>, k: nat): nat
    requires k <= |slices|
  {
    if k == 0 then 0 else Sliced(slices, k - 1) + slices[k - 1].size
  }

  /** Every non-empty slice has bytes behind it. */
  ghost predicate Solid(slices: seq<Slice>, k: nat)
    requires k <= |slices|
  {
    forall j :: 0 <= j < k ==> slices[j].size > 0 ==> slices[j].ptr.Some?
  }

  lemma {:induction false} JoinedLength(slices: seq<Slice>, k: nat)
    requires k <= |slices| && Solid(slices, k) && forall j :: 0 <= j < k ==> slices[j].Readable()
    ensures |JoinedBytes(slices, k)| == Sliced(slices, k)
  {
    if k > 0 {
      JoinedLength(slices, k - 1);
      assert slices[k - 1].Readable();
    }
  }

  lemma {:induction false} JoinedGrows(slices: seq<Slice>, i: nat, k: nat)
    requires i <= k <= |slices|
    ensures Sliced(slices, i) <= Sliced(slices, k)
    ensures |JoinedBytes(slices, i)| <= |JoinedBytes(slices, k)|
    ensures JoinedBytes(slices, k)[..|JoinedBytes(slices, i)|] == JoinedBytes(slices, i)
  {
    if i < k {
      JoinedGrows(slices, i, k - 1);
    }
  }

  /** The records that lengths cut from the joined bytes. */
  function CutRecs(a: Input, bytes: seq<byte>): (recs: seq<Rec>)
    requires |a.lengths| == |a.encodings| && a.ptrs.None?
    ensures |recs| == |a.lengths|
  {
    seq(|a.lengths|, i requires 0 <= i < |a.lengths| => CutRec(a, bytes, i))
  }

  function CutRec(a: Input, bytes: seq<byte>, i: nat): Rec
    requires i < |a.lengths| == |a.encodings| && a.ptrs.None?
  {
    if a.IsNa(i) then NA
    else Str(if a.Needed(i) <= a.Needed(i + 1) <= |bytes| then bytes[a.Needed(i)..a.Needed(i + 1)] else [], a.encodings[i])
  }

  lemma {:induction false} CutRecsDescribed(a: Input, bytes: seq<byte>)
    requires a.Readable() && a.ptrs.None? && a.AllGood(|a.lengths|) && |bytes| == a.Needed(|a.lengths|)
    ensures Describes(a, CutRecs(a, bytes))
  {
    forall i | 0 <= i < |a.lengths|
      ensures a.Good(i) && CutRec(a, bytes, i).Valid()
      ensures !a.IsNa(i) ==> |CutRec(a, bytes, i).bytes| == a.lengths[i]
    {
      assert a.Good(i);
      NeededMonotone(a, i + 1, |a.lengths|);
    }
  }

  lemma {:induction false} CutBytes(a: Input, bytes: seq<byte>, i: nat)
    requires a.Readable() && a.ptrs.None? && a.AllGood(|a.lengths|) && |bytes| == a.Needed(|a.lengths|)
    requires i < |a.lengths|
    ensures a.Needed(i) <= a.Needed(i + 1) <= |bytes|
    ensures CutRecs(a, bytes)[i].Bytes() == bytes[a.Needed(i)..a.Needed(i + 1)]
  {
    NeededMonotone(a, i + 1, |a.lengths|);
    assert a.Good(i);
  }

  lemma {:induction false} CutPayload(a: Input, bytes: seq<byte>, k: nat)
    requires a.Readable() && a.ptrs.None? && a.AllGood(|a.lengths|) && |bytes| == a.Needed(|a.lengths|)
    requires k <= |a.lengths|
    ensures a.Needed(k) <= |bytes|
    ensures Payload(CutRecs(a, bytes)[..k]) == bytes[..a.Needed(k)]
  {
    NeededMonotone(a, k, |a.lengths|);
    if k > 0 {
      var recs := CutRecs(a, bytes);
      CutPayload(a, bytes, k - 1);
      CutBytes(a, bytes, k - 1);
      PayloadStep(recs[..k - 1], recs[k - 1], bytes, a.Needed(k - 1), a.Needed(k));
      Snoc(recs, k);
    }
  }

  /** Every slice before k passes, and slice k fails with error e. */
  ghost predicate SliceFailsAt(slices: seq<Slice>, k: nat, e: FillError)
    requires k < |slices|
  {
    && Solid(slices, k) && Sliced(slices, k) < U64_LIMIT
    && if slices[k].size > 0 && slices[k].ptr.None? then e == NullSlice(k) else e == SizeOverflow && Sliced(slices, k + 1) >= U64_LIMIT
  }

  ghost predicate SlicesFail(slices: seq<Slice>, e: FillError) {
    exists k :: 0 <= k < |slices| && SliceFailsAt(slices, k, e)
  }

  /** Totals the slices, or says which one is null or overflows. */
  method CheckedSlices(slices: seq<Slice>) returns (r: Result<usize, FillError>)
    ensures r.Ok? <==> Solid(slices, |slices|) && Sliced(slices, |slices|) < U64_LIMIT
    ensures r.Ok? ==> r.value == Sliced(slices, |slices|)
    ensures r.Err? ==> SlicesFail(slices, r.error)
  {
    var sliced: usize := 0;
    var k := 0;
    while k < |slices|
      invariant k <= |slices| && Solid(slices, k) && sliced == Sliced(slices, k)
    {
      if slices[k].size > 0 && slices[k].ptr.None? {
        assert SliceFailsAt(slices, k, NullSlice(k));
        return Err(NullSlice(k));
      }
      if sliced > U64_LIMIT - 1 - slices[k].size {
        JoinedGrows(slices, k + 1, |slices|);
        assert SliceFailsAt(slices, k, SizeOverflow);
        return Err(SizeOverflow);
      }
      sliced := sliced + slices[k].size;
      k := k + 1;
    }
    return Ok(sliced);
  }

  /** A call that fills from slices. */
  datatype SliceCall = SliceCall(n: int, lengths: Option<seq<int>>, encodings: Option<seq<byte>>,
                                 nSlices: int, ptrs: Option<seq<Option<seq<byte>>>>, sizes: Option<seq<usize>>, forceWide: bool) {
    predicate Given() {
      lengths.Some? && encodings.Some?
    }

    predicate SlicesGiven() {
      ptrs.Some? && sizes.Some?
    }

    /** The lengths and encodings that cut the slices. */
    function Cuts(): Input {
      if n > 0 && Given() then Input(None, lengths.value, encodings.value) else Input(None, [], [])
    }

    function Slices(): seq<Slice> {
      if nSlices > 0 && SlicesGiven() && |ptrs.value| == |sizes.value| then
        seq(|sizes.value|, k requires 0 <= k < |sizes.value| => Slice(ptrs.value[k], sizes.value[k]))
      else []
    }

    /** What C callers promise: n lengths and encodings, and readable bytes behind every slice. */
    ghost predicate Callable() {
      && (n > 0 && Given() ==>
            n == |lengths.value| == |encodings.value|
            && forall i :: 0 <= i < n ==> NA_INTEGER <= lengths.value[i] <= STRING_MAX)
      && (nSlices > 0 && SlicesGiven() ==>
            nSlices == |ptrs.value| == |sizes.value|
            && forall k :: 0 <= k < nSlices ==> ptrs.value[k].Some? ==> sizes.value[k] <= |ptrs.value[k].value|)
    }

    /** The sizes of the first k slices, added up. */
    ghost function Before(k: nat): nat
      requires Callable() && SlicesGiven() && k <= nSlices
    {
      if k == 0 then 0 else Before(k - 1) + sizes.value[k - 1]
    }

    /** The lengths of the first k entries that are not NA, added up. */
    ghost function Needs(k: nat): nat
      requires Callable() && Given() && k <= n
    {
      if k == 0 then 0
      else Needs(k - 1) + if encodings.value[k - 1] == NA_TAG || lengths.value[k - 1] < 0 then 0 else lengths.value[k - 1]
    }

    /** Slice k is in the bytes right after all slices before it. */
    ghost predicate Follows(bytes: seq<byte>, k: nat)
      requires Callable() && SlicesGiven() && k < nSlices
    {
      ptrs.value[k].Some? ==>
        && Before(k) + sizes.value[k] <= |bytes|
        && bytes[Before(k)..Before(k) + sizes.value[k]] == ptrs.value[k].value[..sizes.value[k]]
    }

    /** The bytes are the slices in order. */
    ghost predicate Orders(bytes: seq<byte>)
      requires Callable() && ArraysGiven()
    {
      if nSlices == 0 then bytes == [] else |bytes| == Before(nSlices) && forall k :: 0 <= k < nSlices ==> Follows(bytes, k)
    }

    /** The records are, entry by entry, what the lengths and encodings say, and
        their bytes, end to end, are the slices in order. */
    ghost predicate Lists(recs: seq<Rec>)
      requires Callable() && ArraysGiven()
    {
      && |recs| == n && Orders(Payload(recs))
      && forall i :: 0 <= i < n ==>
           if lengths.value[i] == NA_INTEGER || encodings.value[i] == NA_TAG then recs[i] == NA
           else recs[i].Str? && recs[i].tag == encodings.value[i] && |recs[i].bytes| == lengths.value[i]
    }

    /** Entry i is one that a fill accepts. */
    ghost predicate Passes(i: nat)
      requires i < n && Given() && Callable()
    {
      ValidTag(encodings.value[i]) && (lengths.value[i] == NA_INTEGER || encodings.value[i] == NA_TAG || lengths.value[i] >= 0)
    }

    /** An error that names an entry, or a slice, names the first one that a fill
        does not accept, and why. */
    ghost predicate NamesFirst(e: FillError)
      requires Callable()
    {
      match e
      case InvalidEncoding(i) =>
        i < n && Given() && !ValidTag(encodings.value[i]) && forall j :: 0 <= j < i ==> Passes(j)
      case NegativeLength(i) =>
        && i < n && Given() && ValidTag(encodings.value[i]) && encodings.value[i] != NA_TAG
        && lengths.value[i] < 0 && lengths.value[i] != NA_INTEGER
        && forall j :: 0 <= j < i ==> Passes(j)
      case NullSlice(k) =>
        && k < nSlices && SlicesGiven() && sizes.value[k] > 0 && ptrs.value[k].None?
        && forall j :: 0 <= j < k ==> ptrs.value[j].Some? || sizes.value[j] == 0
      case _ => true
    }

    function Bytes(): seq<byte> {
      JoinedBytes(Slices(), |Slices()|)
    }

    function Recs(): seq<Rec>
      requires Callable()
    {
      CallableSlices(this);
      CutRecs(Cuts(), Bytes())
    }

    predicate ArraysGiven() {
      n >= 0 && nSlices >= 0 && (n > 0 ==> Given()) && (nSlices > 0 ==> SlicesGiven())
    }

    /** No slice is null with bytes, and their sizes add up to a size_t. */
    ghost predicate SlicesPass() {
      Solid(Slices(), |Slices()|) && Sliced(Slices(), |Slices()|) < U64_LIMIT
    }

    ghost predicate Accepted()
      requires Callable()
    {
      CallableSlices(this);
      && ArraysGiven() && PayloadPasses(Cuts()) && SlicesPass()
      && Sliced(Slices(), |Slices()|) == Cuts().Needed(n) && Fits(n, Cuts().Needed(n), forceWide)
    }

    /** The error of a call that is not accepted: the first check that fails. */
    ghost predicate Refused(e: FillError)
      requires Callable()
    {
      CallableSlices(this);
      if n < 0 || nSlices < 0 then e == NegativeCount
      else if n > 0 && !Given() then e == NullInput
      else if nSlices > 0 && !SlicesGiven() then e == NullSlices
      else if !PayloadPasses(Cuts()) then PayloadFails(Cuts(), e)
      else if !SlicesPass() then SlicesFail(Slices(), e)
      else if Sliced(Slices(), |Slices()|) != Cuts().Needed(n) then e == SliceMismatch(Sliced(Slices(), |Slices()|), Cuts().Needed(n))
      else !Fits(n, Cuts().Needed(n), forceWide) && e == TooLarge
    }

    predicate Wide()
      requires Callable()
    {
      forceWide || NeedsWide(Total(Recs()))
    }
  }

  lemma {:induction false} CallableSlices(c: SliceCall)
    requires c.Callable()
    ensures c.Cuts().Readable() && c.Cuts().ptrs.None? && |c.Cuts().lengths| == if c.n > 0 && c.Given() then c.n else 0
    ensures forall k :: 0 <= k < |c.Slices()| ==> c.Slices()[k].Readable()
    ensures c.nSlices > 0 && c.SlicesGiven() ==> |c.Slices()| == c.nSlices
  {
  }

  lemma {:induction false} BeforeIsSliced(c: SliceCall, k: nat)
    requires c.Callable() && c.SlicesGiven() && k <= c.nSlices
    ensures k <= |c.Slices()| && c.Before(k) == Sliced(c.Slices(), k)
  {
    CallableSlices(c);
    if k > 0 {
      BeforeIsSliced(c, k - 1);
    }
  }

  lemma {:induction false} CutIsGood(c: SliceCall, i: nat)
    requires c.Callable() && c.Given() && i < c.n
    ensures i < |c.Cuts().lengths| == |c.Cuts().encodings| && c.Cuts().ptrs.None?
    ensures c.Passes(i) <==> c.Cuts().Good(i)
    ensures c.Needs(i + 1) == c.Needs(i) + c.Cuts().Size(i)
  {
  }

  lemma {:induction false} NeedsIsNeeded(c: SliceCall, k: nat)
    requires c.Callable() && c.Given() && k <= c.n
    ensures c.Cuts().Readable() && k <= |c.Cuts().lengths| && c.Needs(k) == c.Cuts().Needed(k)
  {
    CallableSlices(c);
    if k > 0 {
      CutIsGood(c, k - 1);
      NeedsIsNeeded(c, k - 1);
    }
  }

  lemma {:induction false} AllPass(c: SliceCall)
    requires c.Callable() && (c.n > 0 ==> c.Given())
    ensures c.Cuts().Readable()
    ensures c.Cuts().AllGood(|c.Cuts().lengths|) <==> forall i :: 0 <= i < c.n ==> c.Passes(i)
    ensures c.Cuts().Needed(|c.Cuts().lengths|) == if c.n > 0 then c.Needs(c.n) else 0
  {
    CallableSlices(c);
    if c.n > 0 {
      NeedsIsNeeded(c, c.n);
    }
    forall i | 0 <= i < c.n
      ensures c.Passes(i) <==> c.Cuts().Good(i)
    {
      CutIsGood(c, i);
    }
  }

  lemma {:induction false} AllSolid(c: SliceCall)
    requires c.Callable() && c.ArraysGiven()
    ensures Solid(c.Slices(), |c.Slices()|) <==> forall k :: 0 <= k < c.nSlices ==> c.ptrs.value[k].Some? || c.sizes.value[k] == 0
    ensures Sliced(c.Slices(), |c.Slices()|) == if c.nSlices > 0 then c.Before(c.nSlices) else 0
  {
    CallableSlices(c);
    if c.nSlices > 0 {
      BeforeIsSliced(c, c.nSlices);
    }
    forall k | 0 <= k < c.nSlices
      ensures c.Slices()[k] == Slice(c.ptrs.value[k], c.sizes.value[k])
    {
    }
  }

  /** A call is accepted exactly when no count or array is missing, every entry
      passes, no slice is null with bytes, the slices hold exactly the bytes the
      entries need and a raw vector holds them with the head, the end offsets and
      the tags. */
  lemma {:induction false} SlicesAcceptedExactly(c: SliceCall)
    requires c.Callable()
    ensures c.Accepted() <==>
            && c.n >= 0 && c.nSlices >= 0
            && (c.n > 0 ==> c.Given() && forall i :: 0 <= i < c.n ==> c.Passes(i))
            && (c.nSlices > 0 ==> c.SlicesGiven() && forall k :: 0 <= k < c.nSlices ==> c.ptrs.value[k].Some? || c.sizes.value[k] == 0)
            && var bytes := if c.n > 0 then c.Needs(c.n) else 0;
               && bytes == (if c.nSlices > 0 then c.Before(c.nSlices) else 0)
               && 8 + c.n * (if c.forceWide || bytes > 0xffff_ffff then 8 else 4) + c.n + bytes <= 0x10_0000_0000_0000
  {
    CallableSlices(c);
    if c.ArraysGiven() {
      AllPass(c);
      AllSolid(c);
    }
  }

  /** Slice k is where the sizes before it say. */
  lemma {:induction false} SliceOrdered(slices: seq<Slice>, k: nat)
    requires forall m :: 0 <= m < |slices| ==> slices[m].Readable()
    requires k < |slices| && slices[k].ptr.Some? && slices[k].size <= |slices[k].ptr.value| && Solid(slices, |slices|)
    ensures Sliced(slices, k) + slices[k].size <= |JoinedBytes(slices, |slices|)|
    ensures JoinedBytes(slices, |slices|)[Sliced(slices, k)..Sliced(slices, k) + slices[k].size] == slices[k].ptr.value[..slices[k].size]
  {
    var front, piece, all := JoinedBytes(slices, k), slices[k].Taken(), JoinedBytes(slices, |slices|);
    JoinedLength(slices, k);
    JoinedGrows(slices, k + 1, |slices|);
    AtBack(front, piece);
    assert all[..|front + piece|] == front + piece;
    Nested(all, 0, |front + piece|, |front|, |front + piece|);
  }

  lemma {:induction false} CallFollows(c: SliceCall, k: nat)
    requires c.Callable() && c.ArraysGiven() && Solid(c.Slices(), |c.Slices()|) && k < c.nSlices
    ensures c.Follows(c.Bytes(), k)
  {
    CallableSlices(c);
    BeforeIsSliced(c, k);
    if c.ptrs.value[k].Some? {
      SliceOrdered(c.Slices(), k);
    }
  }

  lemma {:induction false} SlicesOrdered(c: SliceCall)
    requires c.Callable() && c.ArraysGiven() && Solid(c.Slices(), |c.Slices()|)
    ensures c.Orders(c.Bytes())
  {
    CallableSlices(c);
    var slices := c.Slices();
    JoinedLength(slices, |slices|);
    if c.nSlices > 0 {
      BeforeIsSliced(c, c.nSlices);
      forall k | 0 <= k < c.nSlices
        ensures c.Follows(c.Bytes(), k)
      {
        CallFollows(c, k);
      }
    }
  }

  /** The records of an accepted call are what its arrays say. */
  lemma {:induction false} CutsListed(c: SliceCall)
    requires c.Callable() && c.ArraysGiven() && Solid(c.Slices(), |c.Slices()|) && |c.Bytes()| == c.Cuts().Needed(|c.Cuts().lengths|)
    requires c.Cuts().Readable() && c.Cuts().AllGood(|c.Cuts().lengths|)
    ensures c.Lists(c.Recs())
  {
    var a, bytes, recs := c.Cuts(), c.Bytes(), c.Recs();
    SlicesOrdered(c);
    CutPayload(a, bytes, |a.lengths|);
    assert recs[..|a.lengths|] == recs && bytes[..|bytes|] == bytes;
    CutRecsDescribed(a, bytes);
    forall i | 0 <= i < c.n
      ensures
        if c.lengths.value[i] == NA_INTEGER || c.encodings.value[i] == NA_TAG then recs[i] == NA
        else recs[i].Str? && recs[i].tag == c.encodings.value[i] && |recs[i].bytes| == c.lengths.value[i]
    {
      assert a.Good(i);
    }
  }

  /** An entry that fails is the first in the arrays to fail. */
  lemma {:induction false} FirstCutNamed(c: SliceCall, k: nat, e: FillError)
    requires c.Callable() && (c.n > 0 ==> c.Given()) && c.Cuts().Readable() && k < |c.Cuts().lengths| && FailsAt(c.Cuts(), k, e)
    ensures c.NamesFirst(e)
  {
    forall j | 0 <= j < k
      ensures c.Passes(j)
    {
      assert c.Cuts().Good(j);
    }
  }

  lemma {:induction false} FirstSliceNamed(c: SliceCall, k: nat, e: FillError)
    requires c.Callable() && c.ArraysGiven() && k < |c.Slices()| && SliceFailsAt(c.Slices(), k, e)
    ensures c.NamesFirst(e)
  {
    forall j | 0 <= j < k
      ensures c.ptrs.value[j].Some? || c.sizes.value[j] == 0
    {
      assert c.Slices()[j].size > 0 ==> c.Slices()[j].ptr.Some?;
    }
  }

  /** Builds the buffer of the records the lengths cut from the joined slices, or
      says why not. */
  method FillSlices(c: SliceCall, host: Order) returns (r: Result<array<byte>, FillError>)
    requires c.Callable()
    ensures r.Ok? <==> c.Accepted()
    ensures r.Err? ==> c.Refused(r.error) && c.NamesFirst(r.error)
    ensures r.Ok? ==> c.Lists(c.Recs())
    ensures r.Ok? ==> fresh(r.value) && r.value.Length <= XLEN_MAX && Holds(r.value[..], c.Recs(), c.Wide(), host)
  {
    if c.n < 0 || c.nSlices < 0 {
      return Err(NegativeCount);
    }
    if c.n > 0 && (c.lengths.None? || c.encodings.None?) {
      return Err(NullInput);
    }
    if c.nSlices > 0 && (c.ptrs.None? || c.sizes.None?) {
      return Err(NullSlices);
    }
    CallableSlices(c);
    var a, slices := c.Cuts(), c.Slices();
    var checked := CheckedPayload(a);
    if checked.Err? {
      ghost var i :| 0 <= i < |a.lengths| && FailsAt(a, i, checked.error);
      FirstCutNamed(c, i, checked.error);
      return Err(checked.error);
    }
    var sliced := CheckedSlices(slices);
    if sliced.Err? {
      ghost var k :| 0 <= k < |slices| && SliceFailsAt(slices, k, sliced.error);
      FirstSliceNamed(c, k, sliced.error);
      return Err(sliced.error);
    }
    if sliced.value != checked.value {
      return Err(SliceMismatch(sliced.value, checked.value));
    }
    JoinedLength(slices, |slices|);
    CutsListed(c);
    r := BuildFromSlices(a, slices, checked.value, c.forceWide, host, c.Bytes());
  }

  method BuildFromSlices(a: Input, slices: seq<Slice>, payload: usize, forceWide: bool, host: Order,
                         ghost bytes: seq<byte>)
    returns (r: Result<array<byte>, FillError>)
    requires a.Readable() && a.ptrs.None? && a.AllGood(|a.lengths|)
    requires Solid(slices, |slices|) && forall k :: 0 <= k < |slices| ==> slices[k].Readable()
    requires bytes == JoinedBytes(slices, |slices|) && |bytes| == payload == a.Needed(|a.lengths|)
    ensures r.Ok? <==> BytesStart(|a.lengths|, forceWide || NeedsWide(payload)) + payload <= XLEN_MAX
    ensures r.Ok? || r == Err(TooLarge)
    ensures r.Ok? ==> fresh(r.value) && r.value.Length <= XLEN_MAX && Total(CutRecs(a, bytes)) == payload
    ensures r.Ok? ==> Holds(r.value[..], CutRecs(a, bytes), forceWide || NeedsWide(payload), host)
  {
    var n := |a.lengths|;
    ghost var recs := CutRecs(a, bytes);
    CutRecsDescribed(a, bytes);
    NeededIsStart(a, recs, n);
    var made, image := AllocData1(a, payload, forceWide, host, recs);
    if made.Err? {
      return Err(made.error);
    }
    var raw, wide := made.value, forceWide || NeedsWide(payload);
    CutPayload(a, bytes, n);
    assert recs[..n] == recs && bytes[..|bytes|] == bytes;
    HoldsFields(image, recs, wide, host);
    CopySlices(slices, raw, BytesStart(n, wide), image);
    assert raw[..] == image;
    return Ok(raw);
  }

  /** Copies the slices end to end. */
  method CopySlices(slices: seq<Slice>, raw: array<byte>, start: nat, ghost image: seq<byte>)
    requires forall k :: 0 <= k < |slices| ==> slices[k].Readable()
    requires Solid(slices, |slices|)
    requires start <= raw.Length == |image| && image[start..] == JoinedBytes(slices, |slices|)
    requires Matches(raw, image, 0, start)
    modifies raw
    ensures Matches(raw, image, 0, raw.Length)
  {
    var dest := start;
    var k := 0;
    while k < |slices|
      invariant k <= |slices| && dest == start + |JoinedBytes(slices, k)| && dest <= raw.Length
      invariant Matches(raw, image, 0, dest)
    {
      SlicePiece(slices, image, start, k);
      assert JoinedBytes(slices, k + 1) == JoinedBytes(slices, k) + slices[k].Taken();
      if slices[k].size > 0 {
        WritePiece(raw, dest, slices[k].ptr.value[..slices[k].size], image);
        dest := dest + slices[k].size;
      }
      k := k + 1;
    }
  }

  lemma {:induction false} SlicePiece(slices: seq<Slice>, image: seq<byte>, start: nat, k: nat)
    requires k < |slices| && start <= |image| && image[start..] == JoinedBytes(slices, |slices|)
    requires slices[k].Readable() && (slices[k].size > 0 ==> slices[k].ptr.Some?)
    ensures var at := start + |JoinedBytes(slices, k)|;
            && at + slices[k].size == start + |JoinedBytes(slices, k + 1)| <= |image|
            && image[at..at + slices[k].size] == slices[k].Taken()
  {
    var front, piece, all := JoinedBytes(slices, k), slices[k].Taken(), JoinedBytes(slices, |slices|);
    var at := |front|;
    JoinedGrows(slices, k + 1, |slices|);
    AtBack(front, piece);
    assert all[..at + |piece|] == front + piece;
    Nested(all, 0, at + |piece|, at, at + |piece|);
    Nested(image, start, |image|, at, at + |piece|);
  }

  /** Slicing is irrelevant: slices that join to the payload of the views, cut by
      the same lengths and encodings, denote the same records, wherever the cuts
      fall. NA must show in a length or an encoding, since slices carry no pointer. */
  lemma {:induction false} SlicingIrrelevant(views: Input, cuts: Input, slices: seq<Slice>)
    requires views.Readable() && views.ptrs.Some? && views.AllGood(|views.lengths|)
    requires cuts == Input(None, views.lengths, views.encodings)
    requires forall i :: 0 <= i < |views.lengths| ==> views.IsNa(i) == cuts.IsNa(i)
    requires JoinedBytes(slices, |slices|) == Payload(ViewRecs(views))
    ensures CutRecs(cuts, JoinedBytes(slices, |slices|)) == ViewRecs(views)
  {
    var recs, bytes := ViewRecs(views), JoinedBytes(slices, |slices|);
    ViewRecsDescribed(views);
    forall i | 0 <= i < |recs|
      ensures CutRec(cuts, bytes, i) == recs[i]
    {
      SameCut(views, cuts, bytes, recs, i);
    }
  }

  /** So the two buffers, in one width, are equal byte for byte. */
  lemma {:induction false} SlicingSameBytes(views: Input, cuts: Input, slices: seq<Slice>, one: seq<byte>, two: seq<byte>, wide: bool, host: Order)
    requires views.Readable() && views.ptrs.Some? && views.AllGood(|views.lengths|)
    requires cuts == Input(None, views.lengths, views.encodings)
    requires forall i :: 0 <= i < |views.lengths| ==> views.IsNa(i) == cuts.IsNa(i)
    requires JoinedBytes(slices, |slices|) == Payload(ViewRecs(views))
    ensures Holds(one, ViewRecs(views), wide, host) && Holds(two, CutRecs(cuts, JoinedBytes(slices, |slices|)), wide, host) ==> one == two
  {
    SlicingIrrelevant(views, cuts, slices);
    if Holds(one, ViewRecs(views), wide, host) && Holds(two, ViewRecs(views), wide, host) {
      HoldsImage(one, ViewRecs(views), wide, host);
      HoldsImage(two, ViewRecs(views), wide, host);
    }
  }

  /** The bytes in order are the payload, up to any entry. */
  lemma {:induction false} ViewsPayload(c: ViewCall, bytes: seq<byte>, k: nat)
    requires c.Callable() && c.n > 0 && c.Given() && c.Lists(c.Recs()) && c.Orders(bytes) && k <= c.n
    ensures c.Before(k) <= |bytes| && Payload(c.Recs()[..k]) == bytes[..c.Before(k)]
  {
    BeforeGrows(c, k, c.n);
    if k > 0 {
      var recs := c.Recs();
      ViewsPayload(c, bytes, k - 1);
      ViewPlaced(c, bytes, k - 1);
      PayloadStep(recs[..k - 1], recs[k - 1], bytes, c.Before(k - 1), c.Before(k));
      Snoc(recs, k);
    }
  }

  lemma {:induction false} ViewPlaced(c: ViewCall, bytes: seq<byte>, i: nat)
    requires c.Callable() && c.n > 0 && c.Given() && c.Lists(c.Recs()) && c.Orders(bytes) && i < c.n
    ensures c.Before(i) <= c.Before(i + 1) <= |bytes| && c.Recs()[i].Bytes() == bytes[c.Before(i)..c.Before(i + 1)]
  {
    BeforeGrows(c, i + 1, c.n);
    assert c.Follows(bytes, i);
  }

  lemma {:induction false} BeforeGrows(c: ViewCall, i: nat, k: nat)
    requires c.Callable() && c.Given() && i <= k <= c.n
    ensures c.Before(i) <= c.Before(k)
  {
    if i < k {
      BeforeGrows(c, i, k - 1);
    }
  }

  lemma {:induction false} SlicePlaced(c: SliceCall, bytes: seq<byte>, k: nat)
    requires c.Callable() && c.ArraysGiven() && c.nSlices > 0 && Solid(c.Slices(), |c.Slices()|) && c.Orders(bytes)
    requires k < c.nSlices && c.Before(k + 1) <= |bytes|
    ensures k < |c.Slices()| && c.Before(k) <= c.Before(k + 1) && c.Slices()[k].Taken() == bytes[c.Before(k)..c.Before(k + 1)]
  {
    CallableSlices(c);
    assert c.Follows(bytes, k) && c.Slices()[k].Readable();
  }

  /** The bytes in order are the joined slices, up to any slice. */
  lemma {:induction false} SlicesJoined(c: SliceCall, bytes: seq<byte>, k: nat)
    requires c.Callable() && c.ArraysGiven() && c.nSlices > 0 && Solid(c.Slices(), |c.Slices()|) && c.Orders(bytes) && k <= c.nSlices
    ensures k <= |c.Slices()| && c.Before(k) <= |bytes| && JoinedBytes(c.Slices(), k) == bytes[..c.Before(k)]
  {
    var slices := c.Slices();
    CallableSlices(c);
    BeforeIsSliced(c, k);
    BeforeIsSliced(c, c.nSlices);
    JoinedGrows(slices, k, |slices|);
    if k > 0 {
      SlicesJoined(c, bytes, k - 1);
      SlicePlaced(c, bytes, k - 1);
      Meet(bytes, 0, c.Before(k - 1), c.Before(k));
      assert bytes[0..c.Before(k - 1)] == bytes[..c.Before(k - 1)];
    }
  }

  /** Two calls, one with views and one with slices, of the same lengths, encodings
      and bytes in order: both hold the same records, and build the same buffer. */
  lemma {:induction false} CallsAgree(v: ViewCall, c: SliceCall, bytes: seq<byte>, one: seq<byte>, two: seq<byte>, host: Order)
    requires v.Callable() && c.Callable() && v.Accepted() && c.Accepted()
    requires v.n == c.n && v.lengths == c.lengths && v.encodings == c.encodings && v.forceWide == c.forceWide
    requires v.Orders(bytes) && c.Orders(bytes)
    requires v.n > 0 ==> forall i :: 0 <= i < v.n && v.ptrs.value[i].None? ==> v.lengths.value[i] == NA_INTEGER || v.encodings.value[i] == NA_TAG
    requires Holds(one, v.Recs(), v.Wide(), host) && Holds(two, c.Recs(), c.Wide(), host)
    ensures v.Recs() == c.Recs() && one == two
  {
    SameCallRecs(v, c, bytes);
    HoldsImage(one, v.Recs(), v.Wide(), host);
    HoldsImage(two, c.Recs(), c.Wide(), host);
  }

  lemma {:induction false} SameCallRecs(v: ViewCall, c: SliceCall, bytes: seq<byte>)
    requires v.Callable() && c.Callable() && v.Accepted() && c.Accepted()
    requires v.n == c.n && v.lengths == c.lengths && v.encodings == c.encodings && v.Orders(bytes) && c.Orders(bytes)
    requires v.n > 0 ==> forall i :: 0 <= i < v.n && v.ptrs.value[i].None? ==> v.lengths.value[i] == NA_INTEGER || v.encodings.value[i] == NA_TAG
    ensures v.Recs() == c.Recs()
  {
    var a, b := v.Recs(), c.Recs();
    ViewCallPayload(v, bytes);
    SliceCallPayload(c, bytes);
    forall i | 0 <= i < |a|
      ensures a[i].NA? == b[i].NA? && a[i].Tag() == b[i].Tag() && |a[i].Bytes()| == |b[i].Bytes()|
    {
    }
    SameRecs(a, b);
  }

  lemma {:induction false} ViewCallPayload(v: ViewCall, bytes: seq<byte>)
    requires v.Callable() && v.Accepted() && v.Orders(bytes)
    ensures v.Lists(v.Recs()) && Payload(v.Recs()) == bytes
  {
    CallableViews(v);
    ViewsListed(v);
    if v.n > 0 {
      ViewsPayload(v, bytes, v.n);
      assert v.Recs()[..v.n] == v.Recs() && bytes[..v.Before(v.n)] == bytes;
    }
  }

  lemma {:induction false} SliceCallPayload(c: SliceCall, bytes: seq<byte>)
    requires c.Callable() && c.Accepted() && c.Orders(bytes)
    ensures c.Lists(c.Recs()) && Payload(c.Recs()) == bytes
  {
    CallableSlices(c);
    var slices := c.Slices();
    JoinedLength(slices, |slices|);
    CutsListed(c);
    if c.nSlices > 0 {
      SlicesJoined(c, bytes, c.nSlices);
      assert bytes[..c.Before(c.nSlices)] == bytes;
    }
    var a := c.Cuts();
    CutPayload(a, c.Bytes(), |a.lengths|);
    assert c.Recs()[..|a.lengths|] == c.Recs() && c.Bytes()[..|c.Bytes()|] == c.Bytes();
  }

  lemma {:induction false} SameCut(views: Input, cuts: Input, bytes: seq<byte>, recs: seq<Rec>, i: nat)
    requires Describes(views, recs) && views.ptrs.Some? && recs == ViewRecs(views) && i < |recs|
    requires cuts == Input(None, views.lengths, views.encodings)
    requires forall i :: 0 <= i < |views.lengths| ==> views.IsNa(i) == cuts.IsNa(i)
    requires bytes == Payload(recs)
    ensures CutRec(cuts, bytes, i) == recs[i]
  {
    SameNeeded(views, cuts, i);
    SameNeeded(views, cuts, i + 1);
    NeededIsStart(views, recs, i);
    NeededIsStart(views, recs, i + 1);
    PayloadSpan(recs, i);
    assert views.Good(i) && recs[i] == ViewRec(views, i);
  }

  lemma {:induction false} SameNeeded(views: Input, cuts: Input, k: nat)
    requires views.Readable() && views.ptrs.Some?
    requires cuts == Input(None, views.lengths, views.encodings) && k <= |views.lengths|
    requires forall i :: 0 <= i < |views.lengths| ==> views.IsNa(i) == cuts.IsNa(i)
    ensures cuts.Needed(k) == views.Needed(k)
  {
    if k > 0 {
      SameNeeded(views, cuts, k - 1);
    }
  }
}
