/** memcpy into a fixed-size buffer. */
module Memory {
  import opened Records
  import opened Seqs
  import opened Words

  method CopyIn(dst: array<byte>, at: nat, src: seq<byte>)
    requires at + |src| <= dst.Length
    modifies dst
    ensures dst[..] == Splice(old(dst[..]), at, src)
  {
    forall k | 0 <= k < |src| {
      dst[at + k] := src[k];
    }
  }

  method StoreWord(dst: array<byte>, at: nat, x: nat, w: nat, host: Order)
    requires at + w <= dst.Length
    modifies dst
    ensures dst[..] == Splice(old(dst[..]), at, Word(x, w, host))
  {
    CopyIn(dst, at, Word(x, w, host));
  }

  /** The buffer holds the image's bytes from lo to hi. */
  ghost predicate Matches(raw: array<byte>, image: seq<byte>, lo: nat, hi: nat)
    requires hi <= raw.Length == |image|
    reads raw
  {
    forall k :: lo <= k < hi ==> raw[k] == image[k]
  }

  /** Writes one piece of the image and touches nothing else. */
  method WritePiece(raw: array<byte>, at: nat, piece: seq<byte>, ghost image: seq<byte>)
    requires at + |piece| <= raw.Length == |image| && image[at..at + |piece|] == piece
    modifies raw
    ensures Matches(raw, image, at, at + |piece|)
    ensures forall k :: 0 <= k < raw.Length && !(at <= k < at + |piece|) ==> raw[k] == old(raw[k])
  {
    forall k | 0 <= k < |piece| {
      raw[at + k] := piece[k];
    }
    forall k | at <= k < at + |piece|
      ensures raw[k] == image[k]
    {
      assert raw[k] == piece[k - at] == image[at..at + |piece|][k - at];
    }
  }

  lemma {:induction false} MatchesAll(raw: array<byte>, image: seq<byte>)
    requires raw.Length == |image| && Matches(raw, image, 0, |image|)
    ensures raw[..] == image
  {
  }
}
