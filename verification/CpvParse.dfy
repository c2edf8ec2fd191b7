/** Parsing and checking an untrusted serialized charvec state. */
module CpvParse {
  import opened Records
  import opened Words
  import opened Seqs
  import opened PackLayout
  import opened PackRecords
  import opened PackState
  import opened Cpv

  datatype CpvError =
    | WrongType
    | CutShort
    | BadFormat
    | BadEndianFlag
    | LengthExceedsXlen
    | HeaderOverflow
    | HeaderCutShort
    | SizeTooLong
    | BadTag
    | NaHasSize
    | PayloadCutShort
    | TrailingPayload

  /** What the header says: the version, whether to swap words, and the record count. */
  datatype Layout = Layout(version: Version, swap: bool, n: nat)

  /** The body is read in the order the flag names. */
  function OrderOf(flag: byte): Order {
    if flag == 1 then Little else Big
  }

  predicate Magic(s: seq<byte>)
    requires PREFIX <= |s|
  {
    s[0] == 0x43 && s[1] == 0x50 && s[2] == 0x56 && (s[3] == 0x31 || s[3] == 0x32)
  }

  /** The first check that the header of s fails. */
  function HeaderError(s: seq<byte>): Option<CpvError> {
    if |s| < PREFIX + HEADER then Some(CutShort)
    else if !Magic(s) then Some(BadFormat)
    else if s[4] != 1 && s[4] != 2 then Some(BadEndianFlag)
    else
      var n := HeadOf(s[PREFIX..], OrderOf(s[4]));
      if n >= WIDE_BIT then Some(LengthExceedsXlen)
      else if BytesStart(n, false) >= U64_LIMIT then Some(HeaderOverflow)
      else if PREFIX + BytesStart(n, false) > |s| then Some(HeaderCutShort)
      else None
  }

  /** The header passes all checks before the one that the error names, and fails that one. */
  ghost predicate HeaderFailsWith(s: seq<byte>, err: CpvError) {
    if |s| < 13 then err == CutShort
    else
      var named := s[0] == 'C' as int && s[1] == 'P' as int && s[2] == 'V' as int && (s[3] == '1' as int || s[3] == '2' as int);
      var n := Value(s[5..13], if s[4] == 1 then Little else Big);
      match err
      case BadFormat => !named
      case BadEndianFlag => named && s[4] != 1 && s[4] != 2
      case LengthExceedsXlen => named && s[4] in {1, 2} && n > 0x7fff_ffff_ffff_ffff
      case HeaderOverflow => named && s[4] in {1, 2} && n <= 0x7fff_ffff_ffff_ffff && 8 + 5 * n > 0xffff_ffff_ffff_ffff
      case HeaderCutShort =>
        named && s[4] in {1, 2} && n <= 0x7fff_ffff_ffff_ffff && 8 + 5 * n <= 0xffff_ffff_ffff_ffff && |s| < 13 + 5 * n
      case _ => false
  }

  /** s begins with this version and byte order, and the regions its body names fit. */
  ghost predicate HeaderIs(s: seq<byte>, v: Version, o: Order) {
    PREFIX <= |s| && s[..PREFIX] == Prefix(v, o) && HeadFits(s[PREFIX..], o) && !WideOf(s[PREFIX..], o)
  }

  lemma {:induction false} HeaderIsPasses(s: seq<byte>, v: Version, o: Order)
    requires |s| < U64_LIMIT && HeaderIs(s, v, o)
    ensures HeaderError(s).None?
  {
    var p := Prefix(v, o);
    assert s[0] == p[0] && s[1] == p[1] && s[2] == p[2] && s[3] == p[3] && s[4] == p[4];
    assert OrderOf(s[4]) == o;
  }

  lemma {:induction false} PassesHeaderIs(s: seq<byte>)
    requires HeaderError(s).None?
    ensures HeaderIs(s, if s[3] == 0x31 then Cpv1 else Cpv2, OrderOf(s[4]))
  {
    assert s[..PREFIX] == [s[0], s[1], s[2], s[3], s[4]];
  }

  /** The headers that pass are those of some version and byte order whose body's
      regions fit. */
  lemma {:induction false} HeaderErrorExact(s: seq<byte>)
    requires |s| < U64_LIMIT
    ensures HeaderError(s).None? <==> exists v, o :: HeaderIs(s, v, o)
  {
    if HeaderError(s).None? {
      PassesHeaderIs(s);
    }
    if v: Version, o: Order :| HeaderIs(s, v, o) {
      HeaderIsPasses(s, v, o);
    }
  }

  /** A word of the state, byte-swapped on request. */
  method ReadWord(raw: array<byte>, at: nat, w: nat, host: Order, swap: bool) returns (x: nat)
    requires at + w <= raw.Length
    ensures x == Value(raw[..][at..at + w], Reading(host, swap)) < Pow256(w)
  {
    var word := raw[at..at + w];
    LoadOrder(word, host, swap);
    assert word == raw[..][at..at + w];
    x := Load(word, host, swap);
  }

  lemma {:induction false} HeaderErrorMeans(s: seq<byte>)
    requires |s| < U64_LIMIT && HeaderError(s).Some?
    ensures HeaderFailsWith(s, HeaderError(s).value)
  {
    if PREFIX + HEADER <= |s| {
      assert s[PREFIX..][..HEADER] == s[5..13];
    }
  }

  /** Checks the header and returns what it says: an error is the first check that fails. */
  method ParseHeader(raw: array<byte>, host: Order) returns (r: Result<Layout, CpvError>)
    requires raw.Length < U64_LIMIT
    ensures r.Err? <==> HeaderError(raw[..]).Some?
    ensures r.Err? ==> HeaderError(raw[..]) == Some(r.error) && HeaderFailsWith(raw[..], r.error)
    ensures r.Ok? ==>
              var o := Reading(host, r.value.swap);
              HeaderIs(raw[..], r.value.version, o) && r.value.n == CountOf(raw[..][PREFIX..], o)
  {
    r := ReadHeader(raw, host);
    if r.Err? {
      HeaderErrorMeans(raw[..]);
    }
  }

  /** No step leaves the range of size_t. */
  method ReadHeader(raw: array<byte>, host: Order) returns (r: Result<Layout, CpvError>)
    requires raw.Length < U64_LIMIT
    ensures r.Err? <==> HeaderError(raw[..]).Some?
    ensures r.Err? ==> HeaderError(raw[..]) == Some(r.error)
    ensures r.Ok? ==>
              var o := Reading(host, r.value.swap);
              HeaderIs(raw[..], r.value.version, o) && r.value.n == CountOf(raw[..][PREFIX..], o)
  {
    ghost var s := raw[..];
    if raw.Length < PREFIX + HEADER {
      return Err(CutShort);
    }
    if raw[0] != 0x43 || raw[1] != 0x50 || raw[2] != 0x56 || (raw[3] != 0x31 && raw[3] != 0x32) {
      return Err(BadFormat);
    }
    var sourceEndian := raw[4];
    if sourceEndian != 1 && sourceEndian != 2 {
      return Err(BadEndianFlag);
    }
    var swap := sourceEndian != Flag(host);
    var v := if raw[3] == 0x31 then Cpv1 else Cpv2;
    assert s[..PREFIX] == Prefix(v, Reading(host, swap));
    var n := ReadWord(raw, PREFIX, HEADER, host, swap);
    assert s[PREFIX..PREFIX + HEADER] == s[PREFIX..][..HEADER];
    PowWidths();
    if n >= WIDE_BIT {
      return Err(LengthExceedsXlen);
    }
    if n > (U64_LIMIT - 1) / 4 {
      return Err(HeaderOverflow);
    }
    var sizes: usize := n * 4;
    if HEADER > U64_LIMIT - 1 - sizes {
      return Err(HeaderOverflow);
    }
    if HEADER + sizes > U64_LIMIT - 1 - n {
      return Err(HeaderOverflow);
    }
    var header: usize := HEADER + sizes + n;
    if raw.Length - PREFIX < header {
      return Err(HeaderCutShort);
    }
    r := Ok(Layout(v, swap, n));
  }

  // The records.

  /** Record i passes all checks before the one that the error names, and fails that one. */
  ghost predicate SizeFailsWith(f: Fields, i: nat, err: CpvError)
    requires i < |f.ends| == |f.tags|
  {
    var size, tag := f.ends[i], f.tags[i];
    match err
    case SizeTooLong => size > 0x7fff_ffff
    case BadTag => size <= 0x7fff_ffff && tag !in {0, 1, 2, 3, 100, 254, 255}
    case NaHasSize => 0 < size <= 0x7fff_ffff && tag == 255
    case PayloadCutShort =>
      && size <= 0x7fff_ffff && tag in {0, 1, 2, 3, 100, 254, 255} && (tag == 255 ==> size == 0)
      && Used(f, i) + size > |f.bytes|
    case _ => false
  }

  ghost predicate SizesSoundTo(f: Fields, k: nat)
    requires k <= |f.ends| == |f.tags|
  {
    forall i :: 0 <= i < k ==> SoundSize(f, i)
  }

  /** What a verdict on the records of a body means. */
  ghost predicate SizesVerdict(f: Fields, e: Option<CpvError>)
    requires |f.ends| == |f.tags|
  {
    match e
    case None => SizesSoundTo(f, |f.ends|) && Used(f, |f.ends|) == |f.bytes|
    case Some(TrailingPayload) => SizesSoundTo(f, |f.ends|) && Used(f, |f.ends|) != |f.bytes|
    case Some(err) => exists k :: 0 <= k < |f.ends| && SizesSoundTo(f, k) && !SoundSize(f, k) && SizeFailsWith(f, k, err)
  }

  lemma {:induction false} SizesVerdictExact(f: Fields, e: Option<CpvError>)
    requires |f.ends| == |f.tags| && SizesVerdict(f, e)
    ensures e.None? <==> Exact(Ended(f))
  {
    var n := |f.ends|;
    EndedBegin(f, n);
    forall i | 0 <= i < n
      ensures SoundSize(f, i) <==> Sound(Ended(f), i)
    {
      SoundSizeIff(f, i);
    }
  }

  /** Size i of a body. */
  method ReadSize(raw: array<byte>, i: nat, host: Order, swap: bool, ghost f: Fields) returns (size: nat)
    requires PREFIX <= raw.Length && Says(raw[..][PREFIX..], Reading(host, swap), f) && !f.wide && i < |f.ends|
    ensures size == f.ends[i]
  {
    ghost var s := raw[..];
    assert Here(i);
    size := ReadWord(raw, PREFIX + HEADER + 4 * i, 4, host, swap);
    Nested(s, PREFIX, |s|, HEADER + 4 * i, HEADER + 4 * (i + 1));
    assert s[PREFIX..] == s[PREFIX..|s|];
  }

  /** The checks on every record, in order. */
  method CheckSizes(raw: array<byte>, n: nat, host: Order, swap: bool, ghost f: Fields) returns (e: Option<CpvError>)
    requires PREFIX <= raw.Length < U64_LIMIT && Says(raw[..][PREFIX..], Reading(host, swap), f) && !f.wide && n == |f.ends|
    ensures SizesVerdict(f, e)
  {
    var payload: usize := raw.Length - PREFIX - BytesStart(n, false);
    var used: usize := 0;
    var i := 0;
    while i < n
      invariant i <= n && SizesSoundTo(f, i) && used == Used(f, i) <= payload == |f.bytes|
    {
      var size := ReadSize(raw, i, host, swap, f);
      var tag := raw[PREFIX + TagsStart(n, false) + i];
      TagThere(raw[..], n, i, f);
      var defect := None;
      if size > STRING_MAX {
        defect := Some(SizeTooLong);
      } else if !ValidTag(tag) {
        defect := Some(BadTag);
      } else if tag == NA_TAG && size != 0 {
        defect := Some(NaHasSize);
      } else if size > payload - used {
        defect := Some(PayloadCutShort);
      }
      if defect.Some? {
        assert !SoundSize(f, i) && SizeFailsWith(f, i, defect.value);
        return defect;
      }
      assert SoundSize(f, i);
      used := used + size;
      i := i + 1;
    }
    e := if used != payload then Some(TrailingPayload) else None;
  }

  lemma {:induction false} TagThere(s: seq<byte>, n: nat, i: nat, f: Fields)
    requires PREFIX + BytesStart(n, false) <= |s| && n == |f.tags| && i < n
    requires s[PREFIX..][TagsStart(n, false)..BytesStart(n, false)] == f.tags
    ensures s[PREFIX + TagsStart(n, false) + i] == f.tags[i]
  {
    assert s[PREFIX..][TagsStart(n, false)..BytesStart(n, false)][i] == s[PREFIX..][TagsStart(n, false) + i];
  }

  /** The whole check: what passes is exactly the states of lists of valid
      records, and it is read as the list it is a state of. */
  method Parse(raw: array<byte>, host: Order) returns (r: Result<Layout, CpvError>, ghost recs: seq<Rec>)
    requires raw.Length < U64_LIMIT
    ensures r.Ok? <==> ValidCpv(raw[..])
    ensures r.Ok? ==> r.value.n == |recs| && HoldsCpv(raw[..], r.value.version, Reading(host, r.value.swap), recs)
    ensures r.Err? && HeaderError(raw[..]).Some? ==> HeaderError(raw[..]) == Some(r.error) && HeaderFailsWith(raw[..], r.error)
    ensures r.Err? && HeaderError(raw[..]).None? ==>
              exists v, o :: HeaderIs(raw[..], v, o) && SizesVerdict(FieldsOf(raw[..][PREFIX..], o), Some(r.error))
  {
    recs := [];
    r := ParseHeader(raw, host);
    if r.Err? {
      HeaderRejects(raw[..]);
      return;
    }
    ghost var s, o := raw[..], Reading(host, r.value.swap);
    ghost var f := FieldsOf(s[PREFIX..], o);
    SaysFields(s[PREFIX..], o, f);
    var e := CheckSizes(raw, r.value.n, host, r.value.swap, f);
    SizesVerdictExact(f, e);
    if e.Some? {
      RecordsReject(s, r.value.version, o);
      r := Err(e.value);
    } else {
      HeadWord(s[PREFIX..], o);
      recs := ExactBody(f);
      ValidStorable(recs);
      assert HoldsCpv(s, r.value.version, o, recs);
    }
  }

  lemma {:induction false} HeaderRejects(s: seq<byte>)
    requires |s| < U64_LIMIT && HeaderError(s).Some?
    ensures !ValidCpv(s)
  {
    if v: Version, o: Order, recs: seq<Rec> :| HoldsCpv(s, v, o, recs) {
      SaysFields(s[PREFIX..], o, BodyFields(recs));
      HeaderIsPasses(s, v, o);
    }
  }

  lemma {:induction false} RecordsReject(s: seq<byte>, v: Version, o: Order)
    requires |s| < U64_LIMIT && HeaderIs(s, v, o) && !Exact(Ended(FieldsOf(s[PREFIX..], o)))
    ensures !ValidCpv(s)
  {
    if v': Version, o': Order, recs: seq<Rec> :| HoldsCpv(s, v', o', recs) {
      assert Prefix(v, o)[4] == Prefix(v', o')[4];
      SaysFields(s[PREFIX..], o, BodyFields(recs));
      PayloadLength(recs);
      BodyExact(recs);
    }
  }
}
