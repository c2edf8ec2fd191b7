/** R's own strings (CHARSXPs), what a record looks like as one, and the text
    that records and strings stand for under a locale. */
module RStrings {
  import opened Records

  datatype Mark = Unmarked | MarkUtf8 | MarkLatin1 | MarkBytes

  /** A CHARSXP's content. */
  datatype RString = NaString | Chars(bytes: seq<byte>, mark: Mark) {
    /** What R keeps of every string it makes: ASCII carries no mark. */
    ghost predicate Proper() {
      Chars? ==> |bytes| <= STRING_MAX && (AllAscii(bytes) ==> mark == Unmarked)
    }
  }

  predicate AllAscii(s: seq<byte>) {
    forall i :: 0 <= i < |s| ==> s[i] < 0x80
  }

  /** The mark of R's encoding constant for a tag. */
  function BaseMark(tag: byte): Mark {
    if tag == UTF8 || tag == ASCII_OR_UTF8 then MarkUtf8
    else if tag == LATIN1 then MarkLatin1
    else if tag == BYTES then MarkBytes
    else Unmarked
  }

  /** Rf_mkCharLenCE: R drops the mark of an ASCII string. */
  function MakeChar(bytes: seq<byte>, mark: Mark): RString {
    Chars(bytes, if AllAscii(bytes) then Unmarked else mark)
  }

  /** The R string of a record. */
  function Element(r: Rec): RString {
    if r.NA? then NaString else MakeChar(r.bytes, BaseMark(r.tag))
  }

  /** The tag of an R string. */
  function Classify(bytes: seq<byte>, mark: Mark): byte {
    match mark
    case MarkUtf8 => UTF8
    case MarkLatin1 => LATIN1
    case MarkBytes => BYTES
    case Unmarked => if AllAscii(bytes) then ASCII else NATIVE
  }

  /** The record of an R string. */
  function FromString(x: RString): Rec {
    if x.NaString? then NA else Str(x.bytes, Classify(x.bytes, x.mark))
  }

  /** Storing an R string and reading it back gives the same string. */
  lemma {:induction false} ElementOfString(x: RString)
    requires x.Proper()
    ensures FromString(x).Valid() && Element(FromString(x)) == x
  {
  }

  function Elements(recs: seq<Rec>): (xs: seq<RString>)
    ensures |xs| == |recs|
  {
    seq(|recs|, i requires 0 <= i < |recs| => Element(recs[i]))
  }

  // Text.

  /** A locale: whether its native encoding is UTF-8, and which one it is otherwise. */
  datatype Locale = Locale(utf8: bool, id: nat)

  datatype Charset = CsUtf8 | CsLatin1 | CsBytes | CsLocal(id: nat) {
    function Number(): nat {
      match this
      case CsUtf8 => 0
      case CsLatin1 => 1
      case CsBytes => 2
      case CsLocal(id) => id + 3
    }
  }

  /** The characters that bytes spell in a charset. */
  type Decoding = (Charset, seq<byte>) -> seq<nat>

  /** Every charset spells ASCII alike. Two charsets may spell other bytes alike, or not. */
  ghost predicate KeepsAscii(dec: Decoding) {
    forall c, s :: AllAscii(s) ==> dec(c, s) == s
  }

  function NativeCharset(loc: Locale): Charset {
    if loc.utf8 then CsUtf8 else CsLocal(loc.id)
  }

  function CharsetOf(m: Mark, loc: Locale): Charset {
    match m
    case MarkUtf8 => CsUtf8
    case MarkLatin1 => CsLatin1
    case MarkBytes => CsBytes
    case Unmarked => NativeCharset(loc)
  }

  /** What a string says, which is nothing for NA. */
  function TextOf(x: RString, loc: Locale, dec: Decoding): Option<seq<nat>> {
    match x
    case NaString => None
    case Chars(bytes, mark) => Some(dec(CharsetOf(mark, loc), bytes))
  }

  function TextsOf(xs: seq<RString>, loc: Locale, dec: Decoding): (texts: seq<Option<seq<nat>>>)
    ensures |texts| == |xs|
  {
    seq(|xs|, i requires 0 <= i < |xs| => TextOf(xs[i], loc, dec))
  }

  /** xs in locale a and ys in locale b say the same, whatever the charsets spell. */
  ghost predicate SameTexts(xs: seq<RString>, a: Locale, ys: seq<RString>, b: Locale) {
    forall dec | KeepsAscii(dec) :: TextsOf(xs, a, dec) == TextsOf(ys, b, dec)
  }

  /** A record says its bytes in the charset its tag names, in every locale: 1 and
      100 are UTF-8, 2 is latin1, 3 is bytes, and the others, 0 for native and 254
      for ASCII, mean the native one. */
  lemma {:induction false} RecordText(r: Rec, loc: Locale, dec: Decoding)
    requires KeepsAscii(dec) && r.Valid()
    ensures TextOf(Element(r), loc, dec) ==
            if r.NA? then None
            else if r.tag == 1 || r.tag == 100 then Some(dec(CsUtf8, r.bytes))
            else if r.tag == 2 then Some(dec(CsLatin1, r.bytes))
            else if r.tag == 3 then Some(dec(CsBytes, r.bytes))
            else if loc.utf8 then Some(dec(CsUtf8, r.bytes))
            else Some(dec(CsLocal(loc.id), r.bytes))
  {
  }

  // Native records between locales.

  /** What reading a packed state outside a UTF-8 locale makes of a record. */
  function Relabel(r: Rec, loc: Locale): Rec {
    if r.Str? && r.tag == NATIVE && !loc.utf8 then Str(r.bytes, UTF8) else r
  }

  function RelabelAll(recs: seq<Rec>, loc: Locale): (out: seq<Rec>)
    ensures |out| == |recs|
  {
    seq(|recs|, i requires 0 <= i < |recs| => Relabel(recs[i], loc))
  }

  predicate HasNative(recs: seq<Rec>) {
    exists i :: 0 <= i < |recs| && recs[i].Tag() == NATIVE
  }

  /** A record tagged ASCII that holds a byte outside ASCII: the fills store tags
      as given, so a caller can make one. */
  predicate Mislabelled(r: Rec) {
    r.Str? && r.tag == ASCII && !AllAscii(r.bytes)
  }

  /** The tag of a stored R string: ASCII's, 254, exactly when R marks nothing and
      every byte is ASCII; native's, 0, exactly when R marks nothing and some byte is
      not. So no stored string is mislabelled. */
  lemma {:induction false} StringTag(x: RString)
    requires x.Proper()
    ensures FromString(x).Valid() && !Mislabelled(FromString(x))
    ensures FromString(x).Tag() == 255 <==> x.NaString?
    ensures FromString(x).Tag() == 254 <==> x.Chars? && x.mark == Unmarked && forall i :: 0 <= i < |x.bytes| ==> x.bytes[i] < 0x80
    ensures FromString(x).Tag() == 0 <==> x.Chars? && x.mark == Unmarked && exists i :: 0 <= i < |x.bytes| && x.bytes[i] >= 0x80
    ensures FromString(x).Tag() == 1 <==> x.Chars? && x.mark == MarkUtf8
    ensures FromString(x).Tag() == 2 <==> x.Chars? && x.mark == MarkLatin1
    ensures FromString(x).Tag() == 3 <==> x.Chars? && x.mark == MarkBytes
    ensures x.Chars? ==> FromString(x).Str? && FromString(x).bytes == x.bytes
  {
  }

  /** The two native charsets spell the record alike, if it is mislabelled at all. */
  ghost predicate SpeltAlike(r: Rec, a: Locale, b: Locale, dec: Decoding) {
    Mislabelled(r) ==> dec(NativeCharset(a), r.bytes) == dec(NativeCharset(b), r.bytes)
  }

  /** A packed record written in locale a and read in locale b says the same thing
      exactly when it is not tagged ASCII with other bytes, or the two native
      charsets spell those bytes alike. */
  lemma {:induction false} RelabelText(r: Rec, a: Locale, b: Locale, dec: Decoding)
    requires KeepsAscii(dec) && r.Valid() && (r.Tag() == NATIVE ==> a.utf8)
    ensures TextOf(Element(Relabel(r, b)), b, dec) == TextOf(Element(r), a, dec) <==> SpeltAlike(r, a, b, dec)
  {
  }

  /** The record lists a packed state may hold when written in locale a all read
      as the same text in locale b exactly when that is so of every record. */
  lemma {:induction false} RelabelTexts(recs: seq<Rec>, a: Locale, b: Locale, dec: Decoding)
    requires KeepsAscii(dec) && AllValid(recs) && (HasNative(recs) ==> a.utf8)
    ensures TextsOf(Elements(RelabelAll(recs, b)), b, dec) == TextsOf(Elements(recs), a, dec)
        <==> forall i :: 0 <= i < |recs| ==> SpeltAlike(recs[i], a, b, dec)
  {
    forall i | 0 <= i < |recs|
      ensures TextsOf(Elements(RelabelAll(recs, b)), b, dec)[i] == TextsOf(Elements(recs), a, dec)[i]
          <==> SpeltAlike(recs[i], a, b, dec)
    {
      assert recs[i].Valid();
      RelabelText(recs[i], a, b, dec);
    }
  }

  /** A way to decode in which no two charsets spell anything but ASCII alike. */
  function AllDiffer(): (dec: Decoding)
    ensures KeepsAscii(dec)
    ensures forall c, d, s :: c != d && !AllAscii(s) ==> dec(c, s) != dec(d, s)
  {
    (c: Charset, s: seq<byte>) => if AllAscii(s) then s else [c.Number()]
  }

  /** So, whatever the charsets spell, exactly the lists without a mislabelled
      record keep their text in every locale, and the others keep it only where
      the native charset is the same. */
  lemma {:induction false} RelabelAlways(recs: seq<Rec>, a: Locale, b: Locale)
    requires AllValid(recs) && (HasNative(recs) ==> a.utf8)
    ensures SameTexts(Elements(RelabelAll(recs, b)), b, Elements(recs), a)
        <==> (forall i :: 0 <= i < |recs| ==> !Mislabelled(recs[i])) || NativeCharset(a) == NativeCharset(b)
  {
    var some := AllDiffer();
    RelabelTexts(recs, a, b, some);
    if (forall i :: 0 <= i < |recs| ==> !Mislabelled(recs[i])) || NativeCharset(a) == NativeCharset(b) {
      forall dec | KeepsAscii(dec)
        ensures TextsOf(Elements(RelabelAll(recs, b)), b, dec) == TextsOf(Elements(recs), a, dec)
      {
        RelabelTexts(recs, a, b, dec);
      }
    } else {
      var i :| 0 <= i < |recs| && Mislabelled(recs[i]);
      assert !SpeltAlike(recs[i], a, b, some);
    }
  }

  /** What a reader in a locale must make of records whose native ones were written
      as UTF-8: those say in every locale what their bytes say in UTF-8, all others
      come back as they are, and in a UTF-8 locale all do. */
  ghost predicate ReadAsUtf8(recs: seq<Rec>, out: seq<Rec>, loc: Locale) {
    && |out| == |recs| && (loc.utf8 ==> out == recs)
    && forall i :: 0 <= i < |recs| ==>
         if recs[i].Str? && recs[i].tag == NATIVE then out[i].Str? && out[i].bytes == recs[i].bytes && SaysUtf8(out[i], loc)
         else out[i] == recs[i]
  }

  ghost predicate SaysUtf8(r: Rec, loc: Locale)
    requires r.Str?
  {
    forall dec | KeepsAscii(dec) :: TextOf(Element(r), loc, dec) == Some(dec(CsUtf8, r.bytes))
  }

  lemma {:induction false} RelabelReads(recs: seq<Rec>, loc: Locale)
    requires AllValid(recs)
    ensures ReadAsUtf8(recs, RelabelAll(recs, loc), loc)
  {
    var out := RelabelAll(recs, loc);
    forall i | 0 <= i < |recs| && recs[i].Str? && recs[i].tag == NATIVE
      ensures out[i].Str? && out[i].bytes == recs[i].bytes && SaysUtf8(out[i], loc)
    {
      assert recs[i].Valid();
      forall dec | KeepsAscii(dec)
        ensures TextOf(Element(out[i]), loc, dec) == Some(dec(CsUtf8, out[i].bytes))
      {
        RecordText(out[i], loc, dec);
      }
    }
    assert loc.utf8 ==> out == recs;
  }

  /** What saving and restoring makes of packed records: they come back, with native
      ones marked UTF-8 outside a UTF-8 locale. They say the same text exactly when
      no record is tagged ASCII without being ASCII, or the two native charsets agree. */
  ghost predicate ComeBack(out: seq<Rec>, recs: seq<Rec>, from: Locale, to: Locale) {
    && out == RelabelAll(recs, to) && (to.utf8 ==> out == recs)
    && (SameTexts(Elements(out), to, Elements(recs), from) <==>
        (forall i :: 0 <= i < |recs| ==> !Mislabelled(recs[i])) || NativeCharset(from) == NativeCharset(to))
  }

  lemma {:induction false} RelabelledComeBack(recs: seq<Rec>, from: Locale, to: Locale)
    requires AllValid(recs) && (HasNative(recs) ==> from.utf8)
    ensures ComeBack(RelabelAll(recs, to), recs, from, to)
  {
    RelabelAlways(recs, from, to);
    assert to.utf8 ==> RelabelAll(recs, to) == recs;
  }

  /** A mislabelled record that changes meaning: UTF-8 and the other native charset spell its byte differently. */
  lemma {:induction false} MislabelledChangesText(dec: Decoding)
    requires KeepsAscii(dec) && dec(CsUtf8, [0xe9]) != dec(CsLocal(1), [0xe9])
    ensures var r, a, b := Str([0xe9], ASCII), Locale(true, 0), Locale(false, 1);
            r.Valid() && TextOf(Element(Relabel(r, b)), b, dec) != TextOf(Element(r), a, dec)
  {
    assert !AllAscii([0xe9]) by {
      var s: seq<byte> := [0xe9];
      assert s[0] == 0xe9;
    }
  }
}
