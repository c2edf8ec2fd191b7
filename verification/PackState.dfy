/** The serialized charpack state: the validator of an untrusted one, and the
    in-place conversion between byte orders. */
module PackState {
  import opened Records
  import opened Words
  import opened Seqs
  import opened Memory
  import opened PackLayout
  import opened PackRecords

  datatype StateError = Truncated | EndsOutOfOrder | StringTooLong | BadEncoding | NaHasBytes | TrailingBytes

  /** Record i passes all checks before the one that the error names, and fails that one. */
  ghost predicate FailsWith(f: Fields, i: nat, err: StateError)
    requires i < |f.ends| == |f.tags|
  {
    var begin, end, tag := if i == 0 then 0 else f.ends[i - 1], f.ends[i], f.tags[i];
    match err
    case EndsOutOfOrder => end < begin || end > |f.bytes|
    case StringTooLong => begin <= end <= |f.bytes| && end - begin > 0x7fff_ffff
    case BadEncoding => begin <= end <= |f.bytes| && end - begin <= 0x7fff_ffff && tag !in {0, 1, 2, 3, 100, 254, 255}
    case NaHasBytes => begin < end <= |f.bytes| && end - begin <= 0x7fff_ffff && tag == 255
    case _ => false
  }

  /** What a verdict on the records of a buffer means: the error is the first
      check that fails on the first record that fails one. */
  ghost predicate RecordsVerdict(f: Fields, e: Option<StateError>)
    requires |f.ends| == |f.tags|
  {
    match e
    case None => Exact(f)
    case Some(TrailingBytes) => SoundTo(f, |f.ends|) && BeginOf(f, |f.ends|) != |f.bytes|
    case Some(err) => exists k :: 0 <= k < |f.ends| && SoundTo(f, k) && !Sound(f, k) && FailsWith(f, k, err)
  }

  /** What a verdict on the bytes s, read in order o, means. */
  ghost predicate Verdict(s: seq<byte>, o: Order, e: Option<StateError>) {
    if HeadFits(s, o) then RecordsVerdict(FieldsOf(s, o), e) else e == Some(Truncated)
  }

  /** A verdict names no error exactly when the bytes are the layout of some list of records. */
  lemma {:induction false} VerdictExact(s: seq<byte>, o: Order, e: Option<StateError>)
    requires Verdict(s, o, e)
    ensures e.None? <==> ValidState(s, o)
  {
    ValidStateIff(s, o);
  }

  /** The byte order a possibly swapped read amounts to. */
  function Reading(host: Order, swap: bool): Order {
    if swap then host.Flip() else host
  }

  method ReadHead(raw: array<byte>, host: Order, swap: bool) returns (head: usize)
    requires HEADER <= raw.Length
    ensures head == HeadOf(raw[..], Reading(host, swap))
  {
    var word := raw[..HEADER];
    LoadOrder(word, host, swap);
    PowWidths();
    assert word == raw[..][..HEADER];
    head := Load(word, host, swap);
  }

  /** The count and width the head names. */
  method ReadCount(raw: array<byte>, host: Order, ghost recs: seq<Rec>, ghost w: bool) returns (n: nat, wide: bool)
    requires Holds(raw[..], recs, w, host)
    ensures n == |recs| && wide == w
  {
    HoldsFields(raw[..], recs, w, host);
    var head := ReadHead(raw, host, false);
    n, wide := head % WIDE_BIT, head >= WIDE_BIT;
  }

  /** End offset i, byte-swapped on request. */
  method ReadEnd(raw: array<byte>, wide: bool, i: nat, host: Order, swap: bool) returns (end: usize)
    requires HEADER + At(wide, i + 1) <= raw.Length
    ensures end == EndAt(raw[..], wide, i, Reading(host, swap)) < Limit(wide)
  {
    var at := HEADER + At(wide, i);
    var word := raw[at..at + Width(wide)];
    LoadOrder(word, host, swap);
    PowWidths();
    assert word == raw[..][HEADER + At(wide, i)..HEADER + At(wide, i + 1)];
    end := Load(word, host, swap);
  }

  /** Reads the head and checks that the regions it names fit, without leaving
      the range of size_t for any head. */
  method ReadShape(raw: array<byte>, host: Order, swap: bool)
    returns (fits: bool, n: usize, wide: bool, payload: usize)
    requires raw.Length < U64_LIMIT
    ensures fits == HeadFits(raw[..], Reading(host, swap))
    ensures fits ==>
              && n == CountOf(raw[..], Reading(host, swap)) && wide == WideOf(raw[..], Reading(host, swap))
              && BytesStart(n, wide) + payload == raw.Length
  {
    var len: usize := raw.Length;
    fits, n, wide, payload := false, 0, false, 0;
    if len < HEADER {
      return;
    }
    var head := ReadHead(raw, host, swap);
    wide := head >= WIDE_BIT;
    n := head % WIDE_BIT;
    var width: usize := Width(wide);
    if n > (len - HEADER) / (width + 1) {
      return;
    }
    var meta: usize := HEADER + n * (width + 1);
    fits, payload := true, len - meta;
  }

  /** Why a serialized state is invalid, if it is. */
  method FindStateError(raw: array<byte>, host: Order, swap: bool) returns (e: Option<StateError>)
    requires raw.Length < U64_LIMIT
    ensures Verdict(raw[..], Reading(host, swap), e)
    ensures e.None? <==> ValidState(raw[..], Reading(host, swap))
  {
    var fits, n, wide, payload := ReadShape(raw, host, swap);
    if fits {
      ghost var f := FieldsOf(raw[..], Reading(host, swap));
      SaysFields(raw[..], Reading(host, swap), f);
      e := CheckRecords(raw, host, swap, n, wide, payload, f);
    } else {
      e := Some(Truncated);
    }
    VerdictExact(raw[..], Reading(host, swap), e);
  }

  /** The checks on one record, in order. */
  method CheckRecord(raw: array<byte>, host: Order, swap: bool, n: usize, wide: bool, payload: usize,
                     i: usize, begin: usize, ghost f: Fields)
    returns (end: usize, defect: Option<StateError>)
    requires Says(raw[..], Reading(host, swap), f)
    requires n == |f.ends| && wide == f.wide && payload == |f.bytes|
    requires i < n && begin == BeginOf(f, i)
    ensures end == f.ends[i]
    ensures defect.None? <==> Sound(f, i)
    ensures defect.Some? ==> FailsWith(f, i, defect.value)
  {
    assert Here(i);
    end := ReadEnd(raw, wide, i, host, swap);
    var tag := raw[TagsStart(n, wide) + i];
    assert tag == raw[..][TagsStart(n, wide)..BytesStart(n, wide)][i];
    defect := None;
    if end < begin || end > payload {
      defect := Some(EndsOutOfOrder);
    } else if end - begin > STRING_MAX {
      defect := Some(StringTooLong);
    } else if !ValidTag(tag) {
      defect := Some(BadEncoding);
    } else if tag == NA_TAG && end != begin {
      defect := Some(NaHasBytes);
    }
  }

  lemma {:induction false} FirstDefect(f: Fields, k: nat, err: StateError)
    requires k < |f.ends| == |f.tags| && SoundTo(f, k) && !Sound(f, k) && FailsWith(f, k, err)
    ensures RecordsVerdict(f, Some(err))
  {
  }

  lemma {:induction false} NoDefect(f: Fields)
    requires |f.ends| == |f.tags| && SoundTo(f, |f.ends|)
    ensures RecordsVerdict(f, if BeginOf(f, |f.ends|) != |f.bytes| then Some(TrailingBytes) else None)
  {
  }

  lemma {:induction false} SoundStep(f: Fields, i: nat)
    requires i < |f.ends| == |f.tags| && SoundTo(f, i) && Sound(f, i)
    ensures SoundTo(f, i + 1)
  {
  }

  method CheckRecords(raw: array<byte>, host: Order, swap: bool, n: usize, wide: bool, payload: usize,
                      ghost f: Fields)
    returns (e: Option<StateError>)
    requires Says(raw[..], Reading(host, swap), f)
    requires n == |f.ends| && wide == f.wide && payload == |f.bytes|
    ensures RecordsVerdict(f, e)
  {
    var begin: usize := 0;
    var i: usize := 0;
    while i < n
      invariant i <= n && SoundTo(f, i) && begin == BeginOf(f, i)
    {
      var end, defect := CheckRecord(raw, host, swap, n, wide, payload, i, begin, f);
      if defect.Some? {
        FirstDefect(f, i, defect.value);
        return defect;
      }
      SoundStep(f, i);
      begin := end;
      i := i + 1;
    }
    NoDefect(f);
    e := if begin != payload then Some(TrailingBytes) else None;
  }

  /** A head that sets one of bits 52 to 62, as a later layout may, is rejected as truncated. */
  lemma {:induction false} LaterLayoutRejected(s: seq<byte>, o: Order, e: Option<StateError>)
    requires HEADER <= |s| <= XLEN_MAX && CountOf(s, o) / 0x10_0000_0000_0000 != 0
    requires Verdict(s, o, e)
    ensures e == Some(Truncated)
  {
    ValidStateIff(s, o);
  }

  /** The buffer with its head and end offsets in the other byte order. */
  ghost function Swapped(s: seq<byte>, o: Order): seq<byte>
    requires HeadFits(s, o)
  {
    Frame(FieldsOf(s, o), o.Flip())
  }

  /** Swapping keeps what the buffer says, and changes nothing past the end offsets. */
  lemma {:induction false} SwappedSays(s: seq<byte>, o: Order)
    requires HeadFits(s, o)
    ensures var t := Swapped(s, o);
            && HeadFits(t, o.Flip()) && FieldsOf(t, o.Flip()) == FieldsOf(s, o)
            && |t| == |s| && t[TagsStart(CountOf(s, o), WideOf(s, o))..] == s[TagsStart(CountOf(s, o), WideOf(s, o))..]
  {
    FrameOfFields(s, o);
    FieldsOfFrame(FieldsOf(s, o), o.Flip(), Swapped(s, o));
    FrameRest(FieldsOf(s, o), o, s, Swapped(s, o));
  }

  /** Swapping out and back in is the identity. */
  lemma {:induction false} SwappedTwice(s: seq<byte>, o: Order)
    requires HeadFits(s, o)
    ensures HeadFits(Swapped(s, o), o.Flip()) && Swapped(Swapped(s, o), o.Flip()) == s
  {
    SwappedSays(s, o);
    FrameOfFields(s, o);
  }

  /** The swapped buffer is a state in the other order exactly when the original is one. */
  lemma {:induction false} SwappedValid(s: seq<byte>, o: Order)
    requires HeadFits(s, o)
    ensures ValidState(Swapped(s, o), o.Flip()) <==> ValidState(s, o)
  {
    SwappedSays(s, o);
    ValidStateIff(s, o);
    ValidStateIff(Swapped(s, o), o.Flip());
  }

  /** The swapped layout of recs is their layout in the other order. */
  lemma {:induction false} SwappedImage(s: seq<byte>, recs: seq<Rec>, wide: bool, o: Order)
    requires Holds(s, recs, wide, o)
    ensures HeadFits(s, o) && Holds(Swapped(s, o), recs, wide, o.Flip())
  {
    SaysFields(s, o, FieldsFor(recs, wide));
    SwappedSays(s, o);
    SaysFields(Swapped(s, o), o.Flip(), FieldsFor(recs, wide));
  }

  /** One step of the in-place swap: the word after front. */
  method SwapEnd(raw: array<byte>, host: Order, at: nat, w: nat, ghost x: nat, ghost o: Order,
                 ghost front: seq<byte>, ghost tail: seq<byte>, ghost front': seq<byte>, ghost tail': seq<byte>)
    requires |front| == at && raw[..] == front + tail && tail == Word(x, w, o) + tail'
    requires front' == front + Word(x, w, o.Flip())
    modifies raw
    ensures raw[..] == front' + tail'
  {
    ghost var word', s := Word(x, w, o.Flip()), raw[..];
    Assoc(front, Word(x, w, o), tail');
    Middle(s, front, Word(x, w, o), tail', word');
    var word := raw[at..at + w];
    assert word == s[at..at + w];
    SwapInPlace(word, x, o, host);
    StoreWord(raw, at, Load(word, host, true), w, host);
  }

  lemma {:induction false} Middle(s: seq<byte>, front: seq<byte>, word: seq<byte>, back: seq<byte>, word': seq<byte>)
    requires s == front + word + back && |word'| == |word|
    ensures s[|front|..|front| + |word|] == word
    ensures Splice(s, |front|, word') == front + word' + back
  {
  }

  /** What is left of the region and after it begins with the next word. */
  lemma {:induction false} NextWord(s: seq<byte>, head: seq<byte>, words: seq<byte>, rest: seq<byte>, word: seq<byte>, lo: nat)
    requires s == head + words + rest && lo + |word| <= |words| && words[lo..lo + |word|] == word
    ensures |head| + lo + |word| <= |s|
    ensures s[|head| + lo..] == word + s[|head| + lo + |word|..]
  {
  }

  /** The rest begins with the next word. */
  lemma {:induction false} RestStep(s: seq<byte>, head: seq<byte>, ends: seq<nat>, wide: bool, o: Order,
                                    words: seq<byte>, rest: seq<byte>, i: nat)
    requires i < |ends| && words == WordsOf(ends, wide, o) && s == head + words + rest
    ensures |head| + At(wide, i + 1) <= |s|
    ensures s[|head| + At(wide, i)..] == Word(ends[i], Width(wide), o) + s[|head| + At(wide, i + 1)..]
  {
    WordAt(ends, wide, o, i, words);
    NextWord(s, head, words, rest, Word(ends[i], Width(wide), o), At(wide, i));
  }

  /** The swapped part grows by that word, swapped. */
  lemma {:induction false} FrontStep(head: seq<byte>, ends: seq<nat>, wide: bool, o: Order, i: nat)
    requires i < |ends|
    ensures head + WordsOf(ends[..i + 1], wide, o) == (head + WordsOf(ends[..i], wide, o)) + Word(ends[i], Width(wide), o)
  {
    var done, word := WordsOf(ends[..i], wide, o), Word(ends[i], Width(wide), o);
    WordsSnoc(ends[..i], ends[i], wide, o);
    assert ends[..i + 1] == ends[..i] + [ends[i]];
    Assoc(head, done, word);
  }

  /** The head and the first i end offsets are in the other order, and the rest is as in s. */
  ghost predicate SwappedTo(raw: array<byte>, s: seq<byte>, head: seq<byte>, ends: seq<nat>, wide: bool, o: Order, i: nat)
    reads raw
  {
    && i <= |ends| && |head| + At(wide, i) <= |s|
    && raw[..] == (head + WordsOf(ends[..i], wide, o.Flip())) + s[|head| + At(wide, i)..]
  }

  /** Puts one more end offset in the other order. */
  method SwapNext(raw: array<byte>, host: Order, wide: bool, i: nat, ghost s: seq<byte>, ghost ends: seq<nat>, ghost o: Order,
                  ghost head: seq<byte>, ghost rest: seq<byte>)
    requires i < |ends| && |head| == HEADER && s == head + WordsOf(ends, wide, o) + rest
    requires SwappedTo(raw, s, head, ends, wide, o, i)
    modifies raw
    ensures SwappedTo(raw, s, head, ends, wide, o, i + 1)
  {
    WordsLength(ends[..i], wide, o.Flip());
    RestStep(s, head, ends, wide, o, WordsOf(ends, wide, o), rest, i);
    FrontStep(head, ends, wide, o.Flip(), i);
    ghost var front, tail := head + WordsOf(ends[..i], wide, o.Flip()), s[HEADER + At(wide, i)..];
    ghost var front', tail' := head + WordsOf(ends[..i + 1], wide, o.Flip()), s[HEADER + At(wide, i + 1)..];
    SwapEnd(raw, host, HEADER + At(wide, i), Width(wide), ends[i], o, front, tail, front', tail');
  }

  method SwapEnds(raw: array<byte>, host: Order, wide: bool, n: nat, ghost ends: seq<nat>, ghost o: Order,
                  ghost head: seq<byte>, ghost rest: seq<byte>)
    requires n == |ends| && |head| == HEADER
    requires raw[..] == head + WordsOf(ends, wide, o) + rest
    modifies raw
    ensures raw[..] == head + WordsOf(ends, wide, o.Flip()) + rest
  {
    ghost var s := raw[..];
    NoneSwapped(raw, s, head, ends, wide, o);
    var i := 0;
    while i < n
      invariant i <= n && SwappedTo(raw, s, head, ends, wide, o, i)
    {
      SwapNext(raw, host, wide, i, s, ends, o, head, rest);
      i := i + 1;
    }
    assert ends[..n] == ends;
    WordsLength(ends, wide, o);
    TailAfter(s, head, WordsOf(ends, wide, o), rest);
  }

  lemma {:induction false} NoneSwapped(raw: array<byte>, s: seq<byte>, head: seq<byte>, ends: seq<nat>, wide: bool, o: Order)
    requires raw[..] == s && |head| <= |s| && s[..|head|] == head
    ensures SwappedTo(raw, s, head, ends, wide, o, 0)
  {
    assert ends[..0] == [] && WordsOf(ends[..0], wide, o.Flip()) == [];
    assert head + [] == head && s == s[..|head|] + s[|head|..];
  }

  lemma {:induction false} TailAfter(s: seq<byte>, head: seq<byte>, words: seq<byte>, rest: seq<byte>)
    requires s == head + words + rest
    ensures s[|head| + |words|..] == rest
  {
  }

  /** Byte-swaps the head and end offsets in place. The head is read in native
      order when headNative, else byte-swapped. */
  method SwapWords(raw: array<byte>, host: Order, headNative: bool)
    requires HeadFits(raw[..], Reading(host, !headNative))
    modifies raw
    ensures raw[..] == Swapped(old(raw[..]), Reading(host, !headNative))
  {
    ghost var s, o := raw[..], Reading(host, !headNative);
    ghost var f := FieldsOf(s, o);
    var head := ReadHead(raw, host, !headNative);
    var wide := head >= WIDE_BIT;
    var n: usize := head % WIDE_BIT;
    var word := raw[..HEADER];
    assert word == s[..HEADER];
    ghost var head', rest := Word(HeadOf(s, o), HEADER, o.Flip()), f.tags + f.bytes;
    HeadWord(s, o);
    SwapInPlace(word, HeadOf(s, o), o, host);
    HeadStep(s, o, f, head', rest);
    StoreWord(raw, 0, Load(word, host, true), HEADER, host);
    SwapEnds(raw, host, wide, n, f.ends, o, head', rest);
  }

  lemma {:induction false} HeadStep(s: seq<byte>, o: Order, f: Fields, head': seq<byte>, rest: seq<byte>)
    requires HeadFits(s, o) && f == FieldsOf(s, o)
    requires head' == Word(HeadOf(s, o), HEADER, o.Flip()) && rest == f.tags + f.bytes
    ensures Splice(s, 0, head') == head' + WordsOf(f.ends, f.wide, o) + rest
    ensures Swapped(s, o) == head' + WordsOf(f.ends, f.wide, o.Flip()) + rest
  {
    FrameOfFields(s, o);
    HeadWord(s, o);
    HeadSplice(s, s[..HEADER], WordsOf(f.ends, f.wide, o), f.tags, f.bytes, head');
    Assoc(head' + WordsOf(f.ends, f.wide, o.Flip()), f.tags, f.bytes);
  }

  lemma {:induction false} HeadSplice(s: seq<byte>, head: seq<byte>, words: seq<byte>, tags: seq<byte>, bytes: seq<byte>, head': seq<byte>)
    requires s == head + words + tags + bytes && |head'| == |head|
    ensures Splice(s, 0, head') == head' + words + (tags + bytes)
  {
  }
}
