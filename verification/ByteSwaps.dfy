/** The shift-and-mask byte swaps: they reverse a word's bytes. */
module ByteSwaps {
  import opened Records
  import opened Words

  function Swap32(x: bv32): bv32 {
    ((x & 0x0000_00ff) << 24) |
    ((x & 0x0000_ff00) << 8) |
    ((x & 0x00ff_0000) >> 8) |
    ((x & 0xff00_0000) >> 24)
  }

  function Swap64(x: bv64): bv64 {
    ((x & 0x0000_0000_0000_00ff) << 56) |
    ((x & 0x0000_0000_0000_ff00) << 40) |
    ((x & 0x0000_0000_00ff_0000) << 24) |
    ((x & 0x0000_0000_ff00_0000) << 8) |
    ((x & 0x0000_00ff_0000_0000) >> 8) |
    ((x & 0x0000_ff00_0000_0000) >> 24) |
    ((x & 0x00ff_0000_0000_0000) >> 40) |
    ((x & 0xff00_0000_0000_0000) >> 56)
  }

  /** Byte k of a word, the least significant first. */
  function Byte32(x: bv32, k: nat): bv32
    requires k < 4
  {
    if k == 0 then x & 0xff else if k == 1 then (x >> 8) & 0xff else if k == 2 then (x >> 16) & 0xff else (x >> 24) & 0xff
  }

  function Byte64(x: bv64, k: nat): bv64
    requires k < 8
  {
    if k == 0 then x & 0xff else if k == 1 then (x >> 8) & 0xff
    else if k == 2 then (x >> 16) & 0xff else if k == 3 then (x >> 24) & 0xff
    else if k == 4 then (x >> 32) & 0xff else if k == 5 then (x >> 40) & 0xff
    else if k == 6 then (x >> 48) & 0xff else (x >> 56) & 0xff
  }

  /** Byte k of the swapped word is byte 3 - k of the word. */
  lemma {:induction false} Swap32Reverses(x: bv32, k: nat)
    requires k < 4
    ensures Byte32(Swap32(x), k) == Byte32(x, 3 - k)
  {
    assert k == 0 || k == 1 || k == 2 || k == 3;
  }

  /** Byte k of the swapped word is byte 7 - k of the word. */
  lemma {:induction false} Swap64Reverses(x: bv64, k: nat)
    requires k < 8
    ensures Byte64(Swap64(x), k) == Byte64(x, 7 - k)
  {
    assert k == 0 || k == 1 || k == 2 || k == 3 || k == 4 || k == 5 || k == 6 || k == 7;
  }

  /** Swapping twice gives the word back. */
  lemma {:induction false} Swap32Twice(x: bv32)
    ensures Swap32(Swap32(x)) == x
  {
  }

  lemma {:induction false} Swap64Twice(x: bv64)
    ensures Swap64(Swap64(x)) == x
  {
  }

  // The words that the rest of the model reads.

  /** A word is the sum of its bytes. */
  lemma {:induction false} SumOfBytes32(a: bv8, b: bv8, c: bv8, d: bv8)
    ensures (((d as bv32) << 24) | ((c as bv32) << 16) | ((b as bv32) << 8) | (a as bv32)) as int ==
            0x100 * (0x100 * (0x100 * (d as int) + c as int) + b as int) + a as int
  {
  }

  lemma {:induction false} SumOfBytes64(a: bv8, b: bv8, c: bv8, d: bv8, e: bv8, f: bv8, g: bv8, h: bv8)
    ensures (((h as bv64) << 56) | ((g as bv64) << 48) | ((f as bv64) << 40) | ((e as bv64) << 32)
             | ((d as bv64) << 24) | ((c as bv64) << 16) | ((b as bv64) << 8) | (a as bv64)) as int ==
            0x100 * (0x100 * (0x100 * (0x100 * (0x100 * (0x100 * (0x100 * (h as int) + g as int) + f as int) + e as int) + d as int)
              + c as int) + b as int) + a as int
  {
  }

  lemma {:induction false} Pieces32(x: bv32) returns (a: bv8, b: bv8, c: bv8, d: bv8)
    ensures x == ((d as bv32) << 24) | ((c as bv32) << 16) | ((b as bv32) << 8) | (a as bv32)
  {
    a, b, c, d := (x & 0xff) as bv8, ((x >> 8) & 0xff) as bv8, ((x >> 16) & 0xff) as bv8, ((x >> 24) & 0xff) as bv8;
  }

  lemma {:induction false} Pieces64(x: bv64) returns (a: bv8, b: bv8, c: bv8, d: bv8, e: bv8, f: bv8, g: bv8, h: bv8)
    ensures x == ((h as bv64) << 56) | ((g as bv64) << 48) | ((f as bv64) << 40) | ((e as bv64) << 32)
                 | ((d as bv64) << 24) | ((c as bv64) << 16) | ((b as bv64) << 8) | (a as bv64)
  {
    a, b, c, d := (x & 0xff) as bv8, ((x >> 8) & 0xff) as bv8, ((x >> 16) & 0xff) as bv8, ((x >> 24) & 0xff) as bv8;
    e, f, g, h := ((x >> 32) & 0xff) as bv8, ((x >> 40) & 0xff) as bv8, ((x >> 48) & 0xff) as bv8, ((x >> 56) & 0xff) as bv8;
  }

  lemma {:induction false} SwapPieces32(a: bv8, b: bv8, c: bv8, d: bv8)
    ensures Swap32(((d as bv32) << 24) | ((c as bv32) << 16) | ((b as bv32) << 8) | (a as bv32)) ==
            ((a as bv32) << 24) | ((b as bv32) << 16) | ((c as bv32) << 8) | (d as bv32)
  {
  }

  lemma {:induction false} SwapPieces64(a: bv8, b: bv8, c: bv8, d: bv8, e: bv8, f: bv8, g: bv8, h: bv8)
    ensures Swap64(((h as bv64) << 56) | ((g as bv64) << 48) | ((f as bv64) << 40) | ((e as bv64) << 32)
                   | ((d as bv64) << 24) | ((c as bv64) << 16) | ((b as bv64) << 8) | (a as bv64)) ==
            ((a as bv64) << 56) | ((b as bv64) << 48) | ((c as bv64) << 40) | ((d as bv64) << 32)
            | ((e as bv64) << 24) | ((f as bv64) << 16) | ((g as bv64) << 8) | (h as bv64)
  {
  }

  /** The bytes of a word, and of the swapped one, as sums. */
  lemma {:induction false} Sums32(x: bv32) returns (a: byte, b: byte, c: byte, d: byte)
    ensures x as int == 0x100 * (0x100 * (0x100 * d as int + c) + b) + a
    ensures Swap32(x) as int == 0x100 * (0x100 * (0x100 * a as int + b) + c) + d
  {
    var p, q, r, s := Pieces32(x);
    SumOfBytes32(p, q, r, s);
    SumOfBytes32(s, r, q, p);
    SwapPieces32(p, q, r, s);
    a, b, c, d := p as byte, q as byte, r as byte, s as byte;
  }

  lemma {:induction false} Sums64(x: bv64) returns (a: byte, b: byte, c: byte, d: byte, e: byte, f: byte, g: byte, h: byte)
    ensures x as int ==
            0x100 * (0x100 * (0x100 * (0x100 * (0x100 * (0x100 * (0x100 * h as int + g) + f) + e) + d) + c) + b) + a
    ensures Swap64(x) as int ==
            0x100 * (0x100 * (0x100 * (0x100 * (0x100 * (0x100 * (0x100 * a as int + b) + c) + d) + e) + f) + g) + h
  {
    var p, q, r, s, t, u, v, w := Pieces64(x);
    SumOfBytes64(p, q, r, s, t, u, v, w);
    SumOfBytes64(w, v, u, t, s, r, q, p);
    SwapPieces64(p, q, r, s, t, u, v, w);
    a, b, c, d := p as byte, q as byte, r as byte, s as byte;
    e, f, g, h := t as byte, u as byte, v as byte, w as byte;
  }

  lemma {:induction false} SwapOfBytes(s: seq<byte>)
    ensures LowValue(Reversed(s)) == Swap(LowValue(s), |s|)
    ensures LowBytes(LowValue(Reversed(s)), |s|) == Reversed(LowBytes(LowValue(s), |s|))
  {
    LowBytesOfValue(s);
    LowBytesOfValue(Reversed(s));
  }

  /** The mask-and-shift swap of a word is the swap of its bytes in memory. */
  lemma {:induction false} Swap32IsSwap(x: bv32)
    ensures Swap32(x) as nat == Swap(x as nat, 4)
    ensures LowBytes(Swap32(x) as nat, 4) == Reversed(LowBytes(x as nat, 4))
  {
    var s := BytesOf32(x);
    SwapOfBytes(s);
  }

  lemma {:induction false} BytesOf32(x: bv32) returns (s: seq<byte>)
    ensures |s| == 4 && x as nat == LowValue(s) && Swap32(x) as nat == LowValue(Reversed(s))
  {
    var a, b, c, d := Sums32(x);
    s := [a, b, c, d];
    Value4(s);
    BackwardValue4(s);
  }

  lemma {:induction false} Swap64IsSwap(x: bv64)
    ensures Swap64(x) as nat == Swap(x as nat, 8)
    ensures LowBytes(Swap64(x) as nat, 8) == Reversed(LowBytes(x as nat, 8))
  {
    var s := BytesOf64(x);
    SwapOfBytes(s);
  }

  lemma {:induction false} BytesOf64(x: bv64) returns (s: seq<byte>)
    ensures |s| == 8 && x as nat == LowValue(s) && Swap64(x) as nat == LowValue(Reversed(s))
  {
    var a, b, c, d, e, f, g, h := Sums64(x);
    s := [a, b, c, d, e, f, g, h];
    Value8(s);
    BackwardValue8(s);
  }
}
