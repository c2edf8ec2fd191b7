/** Machine words in memory. A native load or store is a positional decode or
    encode in the host's byte order, and a byte swap reverses the bytes. */
module Words {
  import opened Records

  datatype Order = Little | Big {
    function Flip(): Order {
      if Little? then Big else Little
    }
  }

  function Pow256(w: nat): nat {
    if w == 0 then 1 else 0x100 * Pow256(w - 1)
  }

  lemma {:induction false} PowWidths()
    ensures Pow256(4) == U32_LIMIT && Pow256(8) == U64_LIMIT
  {
    assert Pow256(2) == 0x1_0000;
    assert Pow256(4) == 0x1_0000_0000;
    assert Pow256(6) == 0x1_0000_0000_0000;
  }

  /** The w low bytes of x, least significant first. */
  function LowBytes(x: nat, w: nat): (s: seq<byte>)
    ensures |s| == w
    decreases w, x
  {
    if w == 0 then [] else [x % 0x100] + LowBytes(x / 0x100, w - 1)
  }

  function LowValue(s: seq<byte>): nat {
    if s == [] then 0 else s[0] + 0x100 * LowValue(s[1..])
  }

  function Reversed(s: seq<byte>): (r: seq<byte>)
    ensures |r| == |s|
  {
    seq(|s|, i requires 0 <= i < |s| => s[|s| - 1 - i])
  }

  /** The memory image of a w-byte word. */
  function Word(x: nat, w: nat, o: Order): (s: seq<byte>)
    ensures |s| == w
  {
    if o.Little? then LowBytes(x, w) else Reversed(LowBytes(x, w))
  }

  /** The word a load reads from memory. */
  function Value(s: seq<byte>, o: Order): nat {
    if o.Little? then LowValue(s) else LowValue(Reversed(s))
  }

  lemma {:induction false} ReversedTwice(s: seq<byte>)
    ensures Reversed(Reversed(s)) == s
  {
  }

  lemma {:induction false} LowValueOfBytes(x: nat, w: nat)
    requires x < Pow256(w)
    ensures LowValue(LowBytes(x, w)) == x
  {
    if w > 0 {
      LowValueOfBytes(x / 0x100, w - 1);
      assert LowBytes(x, w)[1..] == LowBytes(x / 0x100, w - 1);
    }
  }

  lemma {:induction false} LowBytesOfValue(s: seq<byte>)
    ensures LowValue(s) < Pow256(|s|)
    ensures LowBytes(LowValue(s), |s|) == s
  {
    if s != [] {
      LowBytesOfValue(s[1..]);
      assert LowValue(s) / 0x100 == LowValue(s[1..]);
    }
  }

  /** A load reads back what a store wrote. */
  lemma {:induction false} ValueOfWord(x: nat, w: nat, o: Order)
    requires x < Pow256(w)
    ensures Value(Word(x, w, o), o) == x
  {
    LowValueOfBytes(x, w);
    ReversedTwice(LowBytes(x, w));
  }

  /** A store of a loaded word rewrites the same bytes. */
  lemma {:induction false} WordOfValue(s: seq<byte>, o: Order)
    ensures Value(s, o) < Pow256(|s|)
    ensures Word(Value(s, o), |s|, o) == s
  {
    LowBytesOfValue(s);
    LowBytesOfValue(Reversed(s));
    ReversedTwice(s);
  }

  /** The word whose bytes are those of x reversed. */
  function Swap(x: nat, w: nat): nat {
    LowValue(Reversed(LowBytes(x, w)))
  }

  /** A native load, byte-swapped on request. */
  function Load(s: seq<byte>, host: Order, swap: bool): nat {
    var out := Value(s, host);
    if swap then Swap(out, |s|) else out
  }

  /** A swapped load is a load in the other byte order. */
  lemma {:induction false} LoadOrder(s: seq<byte>, host: Order, swap: bool)
    ensures Load(s, host, swap) == Value(s, if swap then host.Flip() else host)
    ensures Load(s, host, swap) < Pow256(|s|)
  {
    LowBytesOfValue(s);
    LowBytesOfValue(Reversed(s));
    ReversedTwice(s);
  }

  /** Storing a swapped word natively reverses its bytes in memory. */
  lemma {:induction false} SwapReverses(s: seq<byte>, host: Order)
    ensures Word(Swap(Value(s, host), |s|), |s|, host) == Reversed(s)
    ensures Value(Reversed(s), host.Flip()) == Value(s, host)
  {
    LowBytesOfValue(s);
    LowBytesOfValue(Reversed(s));
    ReversedTwice(s);
  }

  /** The bytes of a word in the other order. */
  lemma {:induction false} WordFlip(x: nat, w: nat, o: Order)
    ensures Word(x, w, o.Flip()) == Reversed(Word(x, w, o))
  {
    ReversedTwice(LowBytes(x, w));
  }

  /** Storing natively what a swapped native load read puts the word in the other order. */
  lemma {:induction false} SwapInPlace(word: seq<byte>, x: nat, o: Order, host: Order)
    requires word == Word(x, |word|, o)
    ensures Word(Load(word, host, true), |word|, host) == Word(x, |word|, o.Flip())
  {
    SwapReverses(word, host);
    WordFlip(x, |word|, o);
  }

  // Words written out byte by byte.

  lemma {:induction false} NextByte(s: seq<byte>, i: nat)
    requires i < |s|
    ensures LowValue(s[i..]) == s[i] + 0x100 * LowValue(s[i + 1..])
  {
    assert s[i..][1..] == s[i + 1..];
  }

  /** A little-endian word of four bytes. */
  lemma {:induction false} Value4(s: seq<byte>)
    requires |s| == 4
    ensures LowValue(s) == 0x100 * (0x100 * (0x100 * s[3] as int + s[2]) + s[1]) + s[0]
  {
    NextByte(s, 0);
    NextByte(s, 1);
    NextByte(s, 2);
    NextByte(s, 3);
    assert s[0..] == s;
  }

  lemma {:induction false} Value8(s: seq<byte>)
    requires |s| == 8
    ensures LowValue(s) ==
            0x100 * (0x100 * (0x100 * (0x100 * (0x100 * (0x100 * (0x100 * s[7] as int + s[6]) + s[5]) + s[4]) + s[3]) + s[2]) + s[1]) + s[0]
  {
    Value4(s[4..]);
    NextByte(s, 0);
    NextByte(s, 1);
    NextByte(s, 2);
    NextByte(s, 3);
    assert s[0..] == s;
  }

  /** And a big-endian one. */
  lemma {:induction false} BackwardValue4(s: seq<byte>)
    requires |s| == 4
    ensures LowValue(Reversed(s)) == 0x100 * (0x100 * (0x100 * s[0] as int + s[1]) + s[2]) + s[3]
  {
    Value4(Reversed(s));
  }

  lemma {:induction false} BackwardValue8(s: seq<byte>)
    requires |s| == 8
    ensures LowValue(Reversed(s)) ==
            0x100 * (0x100 * (0x100 * (0x100 * (0x100 * (0x100 * (0x100 * s[0] as int + s[1]) + s[2]) + s[3]) + s[4]) + s[5]) + s[6]) + s[7]
  {
    Value8(Reversed(s));
  }
}
