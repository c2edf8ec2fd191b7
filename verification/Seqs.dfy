/** Slices of concatenations. */
module Seqs {
  lemma {:induction false} Regions<T>(s: seq<T>, a: seq<T>, b: seq<T>, c: seq<T>, d: seq<T>)
    requires s == a + b + c + d
    ensures |s| == |a| + |b| + |c| + |d|
    ensures s[..|a|] == a
    ensures s[|a|..|a| + |b|] == b
    ensures s[|a| + |b|..|a| + |b| + |c|] == c
    ensures s[|a| + |b| + |c|..] == d
  {
  }

  lemma {:induction false} Nested<T>(s: seq<T>, lo: nat, hi: nat, i: nat, j: nat)
    requires i <= j <= hi - lo && lo <= hi <= |s|
    ensures s[lo..hi][i..j] == s[lo + i..lo + j]
  {
    var a, b := s[lo..hi][i..j], s[lo + i..lo + j];
    forall k | 0 <= k < |a|
      ensures a[k] == b[k]
    {
      assert a[k] == s[lo..hi][i + k];
    }
  }

  lemma {:induction false} Joined<T>(s: seq<T>, i: nat, j: nat, k: nat)
    requires i <= j <= k <= |s|
    ensures s == s[..i] + s[i..j] + s[j..k] + s[k..]
  {
  }

  lemma {:induction false} Meet<T>(s: seq<T>, i: nat, j: nat, k: nat)
    requires i <= j <= k <= |s|
    ensures s[i..k] == s[i..j] + s[j..k]
  {
  }

  lemma {:induction false} Snoc<T>(s: seq<T>, k: nat)
    requires 0 < k <= |s|
    ensures s[..k] == s[..k - 1] + [s[k - 1]]
  {
  }

  lemma {:induction false} Assoc<T>(a: seq<T>, b: seq<T>, c: seq<T>)
    ensures (a + b) + c == a + (b + c)
  {
  }

  lemma {:induction false} InFront<T>(a: seq<T>, b: seq<T>, i: nat, j: nat)
    requires i <= j <= |a|
    ensures (a + b)[i..j] == a[i..j]
  {
  }

  lemma {:induction false} AtBack<T>(a: seq<T>, b: seq<T>)
    ensures (a + b)[|a|..|a| + |b|] == b
    ensures (a + b)[|a|..] == b
    ensures (a + b)[..|a|] == a
  {
  }

  /** s with the elements from at on overwritten by src. */
  function Splice<T>(s: seq<T>, at: nat, src: seq<T>): (r: seq<T>)
    requires at + |src| <= |s|
    ensures |r| == |s|
  {
    s[..at] + src + s[at + |src|..]
  }
}
