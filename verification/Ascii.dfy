/** Two ways to tell whether bytes are all ASCII: one at a time, and in blocks of
    lanes whose top bits are gathered. Bytes are eight bits here. */
module Ascii {
  import opened Records
  import RStrings

  ghost predicate Ascii(s: seq<bv8>) {
    forall i :: 0 <= i < |s| ==> s[i] <= 127
  }

  /** An ASCII byte is one whose top bit is clear. */
  lemma {:induction false} TopBit(x: bv8)
    ensures x & 0x80 == 0 <==> x <= 127
  {
  }

  lemma {:induction false} TopBitOfOr(x: bv8, y: bv8)
    ensures (x | y) & 0x80 == 0 <==> x & 0x80 == 0 && y & 0x80 == 0
  {
  }

  /** The scalar check. */
  method CheckScalar(p: array<bv8>) returns (ok: bool)
    ensures ok <==> Ascii(p[..])
  {
    var i := 0;
    while i < p.Length
      invariant i <= p.Length && Ascii(p[..i])
    {
      if p[i] > 127 {
        assert p[..][i] > 127;
        return false;
      }
      assert p[..i + 1] == p[..i] + [p[i]];
      i := i + 1;
    }
    assert p[..i] == p[..];
    ok := true;
  }

  /** The lanes of two registers, or-ed. */
  function OrLanes(a: seq<bv8>, b: seq<bv8>): (c: seq<bv8>)
    requires |a| == |b|
    ensures |c| == |a|
  {
    seq(|a|, k requires 0 <= k < |a| => a[k] | b[k])
  }

  /** The gathered top bits are not all clear. */
  predicate AnyTopBit(lanes: seq<bv8>) {
    exists k :: 0 <= k < |lanes| && lanes[k] & 0x80 != 0
  }

  lemma {:induction false} NoTopBit(lanes: seq<bv8>)
    ensures !AnyTopBit(lanes) <==> Ascii(lanes)
  {
    forall k | 0 <= k < |lanes|
      ensures lanes[k] & 0x80 == 0 <==> lanes[k] <= 127
    {
      TopBit(lanes[k]);
    }
  }

  /** Or-ing registers gathers every top bit that was set in either. */
  lemma {:induction false} OrGathers(a: seq<bv8>, b: seq<bv8>)
    requires |a| == |b|
    ensures AnyTopBit(OrLanes(a, b)) <==> AnyTopBit(a) || AnyTopBit(b)
  {
    forall k | 0 <= k < |a|
      ensures OrLanes(a, b)[k] & 0x80 != 0 <==> a[k] & 0x80 != 0 || b[k] & 0x80 != 0
    {
      TopBitOfOr(a[k], b[k]);
    }
  }

  lemma {:induction false} AsciiJoin(a: seq<bv8>, b: seq<bv8>)
    ensures Ascii(a + b) <==> Ascii(a) && Ascii(b)
  {
    if Ascii(a + b) {
      forall i | 0 <= i < |a|
        ensures a[i] <= 127
      {
        assert (a + b)[i] == a[i];
      }
      forall i | 0 <= i < |b|
        ensures b[i] <= 127
      {
        assert (a + b)[|a| + i] == b[i];
      }
    }
  }

  lemma {:induction false} AsciiSplit(s: seq<bv8>, i: nat, j: nat)
    requires i <= j <= |s|
    ensures Ascii(s[..j]) <==> Ascii(s[..i]) && Ascii(s[i..j])
    ensures Ascii(s) ==> Ascii(s[..j])
  {
    assert s[..j] == s[..i] + s[i..j];
    AsciiJoin(s[..i], s[i..j]);
  }

  /** The blockwise check: whole registers of 32, one of 16, then the rest. */
  method CheckBlocks(p: array<bv8>) returns (ok: bool)
    ensures ok <==> Ascii(p[..])
  {
    var i := 0;
    if p.Length >= 32 {
      var sum: seq<bv8> := seq(32, _ => 0);
      while i + 32 <= p.Length
        invariant i <= p.Length && |sum| == 32 && (!AnyTopBit(sum) <==> Ascii(p[..][..i]))
      {
        var load := p[i..i + 32];
        OrGathers(sum, load);
        NoTopBit(load);
        AsciiSplit(p[..], i, i + 32);
        sum := OrLanes(sum, load);
        i := i + 32;
      }
      AsciiSplit(p[..], 0, i);
      if AnyTopBit(sum) {
        return false;
      }
    }
    if p.Length >= i + 16 {
      NoTopBit(p[i..i + 16]);
      AsciiSplit(p[..], i, i + 16);
      if AnyTopBit(p[i..i + 16]) {
        return false;
      }
      i := i + 16;
    }
    while i < p.Length
      invariant i <= p.Length && Ascii(p[..][..i])
    {
      if p[i] > 127 {
        assert p[..][i] > 127;
        return false;
      }
      assert p[..][..i + 1] == p[..][..i] + [p[i]];
      i := i + 1;
    }
    assert p[..][..i] == p[..];
    ok := true;
  }

  /** The numbers that eight-bit bytes stand for. */
  ghost function Numbers(b: seq<bv8>): (s: seq<byte>)
    ensures |s| == |b|
  {
    seq(|b|, i requires 0 <= i < |b| => b[i] as int)
  }

  lemma {:induction false} SmallBits(b: bv8)
    ensures b <= 127 <==> b as int <= 127
  {
  }

  /** Both checks say what the rest of the model calls ASCII. */
  lemma {:induction false} AsciiNumbers(b: seq<bv8>)
    ensures Ascii(b) <==> RStrings.AllAscii(Numbers(b))
  {
    forall i | 0 <= i < |b|
      ensures b[i] <= 127 <==> Numbers(b)[i] < 0x80
    {
      SmallBits(b[i]);
    }
  }
}
