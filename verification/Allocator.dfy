/** The bump allocator's slice sizes: the builders' policy and the Writer's, and
    how much space either can waste. */
module Allocator {
  import opened Records

  const ALIGNMENT := 64
  const MIN_SLICE := 64
  const MAX_INITIAL := 0x4000
  const MAX_SLICE := 0x4_0000

  function Max(a: nat, b: nat): nat {
    if a < b then b else a
  }

  function Min(a: nat, b: nat): nat {
    if a < b then a else b
  }

  function RoundUp(value: nat, multiple: nat): nat {
    if value == 0 || multiple == 0 then value
    else
      var rem := value % multiple;
      if rem == 0 then value else value + (multiple - rem)
  }

  /** RoundUp gives the least multiple that is not below the value. */
  lemma {:induction false} RoundUpLeast(value: nat, m: nat)
    ensures RoundUp(value, ALIGNMENT) % ALIGNMENT == 0
    ensures value <= RoundUp(value, ALIGNMENT) < value + ALIGNMENT
    ensures value <= m && m % ALIGNMENT == 0 ==> RoundUp(value, ALIGNMENT) <= m
  {
  }

  function Pow2(k: nat): nat {
    if k == 0 then 1 else 2 * Pow2(k - 1)
  }

  /** The least power of two that is not below value, from p on. */
  function PowerFrom(value: nat, p: nat): nat
    requires p > 0
    decreases value - p
  {
    if p >= value then p else PowerFrom(value, 2 * p)
  }

  lemma {:induction false} PowerFromLeast(value: nat, k: nat) returns (j: nat)
    requires k > 0 ==> Pow2(k - 1) < value
    ensures Pow2(k) > 0 && PowerFrom(value, Pow2(k)) == Pow2(j) >= value
    ensures j > 0 ==> Pow2(j - 1) < value
    decreases value - Pow2(k)
  {
    PowPositive(k);
    if Pow2(k) >= value {
      j := k;
    } else {
      assert Pow2(k + 1) == 2 * Pow2(k);
      j := PowerFromLeast(value, k + 1);
    }
  }

  lemma {:induction false} PowPositive(k: nat)
    ensures Pow2(k) > 0
  {
    if k > 0 {
      PowPositive(k - 1);
    }
  }

  /** The next power of two, by doubling that never leaves the range of size_t. */
  method NextPowerOfTwo(value: usize) returns (r: usize)
    ensures r == if value <= 0x8000_0000_0000_0000 then PowerFrom(value, 1) else value
  {
    if value <= 1 {
      return 1;
    }
    var out: usize := 1;
    ghost var k := 0;
    while out < value && out <= (U64_LIMIT - 1) / 2
      invariant out == Pow2(k) && k <= 63 && 0 < out <= 0x8000_0000_0000_0000
      invariant PowerFrom(value, out) == PowerFrom(value, 1)
      invariant k > 0 ==> out / 2 < value
      decreases U64_LIMIT - out
    {
      PowBound(k);
      out := out * 2;
      k := k + 1;
    }
    r := if out < value then value else out;
    PowBound(k);
  }

  lemma {:induction false} PowBound(k: nat)
    requires k <= 63
    ensures Pow2(k) <= 0x8000_0000_0000_0000
    ensures k < 63 ==> Pow2(k) <= 0x4000_0000_0000_0000
    ensures k == 63 ==> Pow2(k) == 0x8000_0000_0000_0000
  {
    PowPlus16(0);
    PowPlus16(14);
    PowPlus16(30);
    PowPlus16(46);
    assert Pow2(14) == 0x4000 && Pow2(62) == 0x4000_0000_0000_0000 && Pow2(63) == 2 * Pow2(62);
    PowMonotone(k, 63);
    if k < 63 {
      PowMonotone(k, 62);
    }
  }

  lemma {:induction false} PowPlus16(k: nat)
    ensures Pow2(k + 16) == 0x1_0000 * Pow2(k)
  {
    if k == 0 {
      assert Pow2(8) == 0x100 && Pow2(16) == 0x1_0000;
    } else {
      PowPlus16(k - 1);
    }
  }

  lemma {:induction false} PowMonotone(i: nat, j: nat)
    requires i <= j
    ensures 0 < Pow2(i) <= Pow2(j)
  {
    PowPositive(i);
    if i < j {
      PowMonotone(i, j - 1);
    }
  }

  /** The first slice's size for a vector of n records. */
  function InitialSlice(n: nat): nat {
    if n <= 1 then 0 else Min(Max(MIN_SLICE, PowerFrom(4 * n, 1)), MAX_INITIAL)
  }

  method InitialSliceHeuristic(n: usize) returns (r: usize)
    requires n <= XLEN_MAX
    ensures r == InitialSlice(n)
  {
    if n <= 1 {
      return 0;
    }
    var scaled := NextPowerOfTwo(n * 4);
    r := Min(Max(MIN_SLICE, scaled), MAX_INITIAL);
  }

  /** The size of the slice opened for len bytes after given bytes in all. */
  function NextSlice(n: nat, given: nat, len: nat): nat {
    var regular := Min(RoundUp(Max(InitialSlice(n), given / 2), ALIGNMENT), MAX_SLICE);
    RoundUp(Max(regular, len), ALIGNMENT)
  }

  /** A slice opened for a valid length holds it, and its size fits a u32. */
  lemma {:induction false} NextSliceFits(n: nat, given: nat, len: nat)
    requires 0 < len <= STRING_MAX
    ensures len <= NextSlice(n, given, len) <= Max(MAX_SLICE, len + 63) < U32_LIMIT
    ensures NextSlice(n, given, len) % ALIGNMENT == 0
  {
  }

  // The builders' shard.

  /** Slice sizes, newest first, and the cursor into the newest. */
  datatype Bump = Bump(caps: seq<nat>, used: nat, cap: nat, given: nat) {
    ghost predicate Ok() {
      used <= cap && (if caps == [] then cap == 0 else caps[0] == cap)
    }

    predicate Fits(len: nat) {
      caps != [] && used + len <= cap
    }

    /** Room for len bytes, in a new slice if the newest has too little left. */
    function Take(n: nat, len: nat): Bump {
      if len == 0 then this
      else if Fits(len) then Bump(caps, used + len, cap, given + len)
      else
        var size := NextSlice(n, given, len);
        Bump([size] + caps, len, size, given + len)
    }
  }

  const FRESH := Bump([], 0, 0, 0)

  function Sum(xs: seq<nat>): nat {
    if xs == [] then 0 else xs[0] + Sum(xs[1..])
  }

  /** The capacity of every slice but the newest. */
  function Retired(b: Bump): nat {
    if b.caps == [] then 0 else Sum(b.caps[1..])
  }

  function TakeAll(b: Bump, n: nat, lens: seq<nat>): Bump {
    if lens == [] then b else TakeAll(b, n, lens[..|lens| - 1]).Take(n, lens[|lens| - 1])
  }

  lemma {:induction false} TakeBound(b: Bump, n: nat, len: nat)
    requires b.Ok() && len <= STRING_MAX && b.used <= b.given && Retired(b) <= 2 * b.given - b.used
    ensures var c := b.Take(n, len);
            c.Ok() && c.used <= c.given && Retired(c) <= 2 * c.given - c.used
    ensures b.cap < U32_LIMIT ==> b.Take(n, len).cap < U32_LIMIT
  {
    if len > 0 && !b.Fits(len) {
      var size := NextSlice(n, b.given, len);
      NextSliceFits(n, b.given, len);
      assert ([size] + b.caps)[1..] == b.caps;
      if b.caps != [] {
        assert Sum(b.caps) == b.cap + Sum(b.caps[1..]);
      }
    }
  }

  /** After any run of allocations the slices that no longer take bytes hold at
      most twice what was asked for, less what the newest slice has given out. */
  lemma {:induction false} RetiredBound(n: nat, lens: seq<nat>)
    requires forall i :: 0 <= i < |lens| ==> lens[i] <= STRING_MAX
    ensures var b := TakeAll(FRESH, n, lens);
            && b.Ok() && b.used <= b.given == Sum(lens)
            && Retired(b) <= 2 * b.given - b.used && b.cap < U32_LIMIT
  {
    if lens != [] {
      var front := lens[..|lens| - 1];
      RetiredBound(n, front);
      TakeBound(TakeAll(FRESH, n, front), n, lens[|lens| - 1]);
      SumSnoc(front, lens[|lens| - 1]);
      assert lens == front + [lens[|lens| - 1]];
    }
  }

  lemma {:induction false} SumSnoc(xs: seq<nat>, x: nat)
    ensures Sum(xs + [x]) == Sum(xs) + x
  {
    if xs == [] {
      assert Sum([x]) == x + Sum([]);
    } else {
      SumSnoc(xs[1..], x);
      assert (xs + [x])[1..] == xs[1..] + [x];
    }
  }

  // How large slices are, and how few.

  /** The first slice's size: nothing for a vector of one record or none, otherwise
      room for four bytes a record, between 64 bytes and 16 KiB. */
  lemma {:induction false} InitialSliceSize(n: nat)
    ensures n <= 1 ==> InitialSlice(n) == 0
    ensures n >= 2 ==> Min(Max(64, 4 * n), 16384) <= InitialSlice(n) <= 16384
    ensures n >= 2 ==> InitialSlice(n) <= 64 || InitialSlice(n) < 8 * n
  {
    if n >= 2 {
      var j := PowerFromLeast(4 * n, 0);
      assert j > 0 ==> Pow2(j) == 2 * Pow2(j - 1);
    }
  }

  /** A slice holds the bytes it is opened for, is as large as a first slice, and half
      as large as all bytes given out so far up to 256 KiB; and it is not larger than
      that by 64 bytes. */
  lemma {:induction false} NextSliceSize(n: nat, given: nat, len: nat)
    ensures var least := Max(len, Min(Max(InitialSlice(n), given / 2), 262144));
            least <= NextSlice(n, given, len) < least + 64
    ensures len > 0 ==> NextSlice(n, given, len) >= 64
  {
    InitialSliceSize(n);
    RoundUpLeast(Max(InitialSlice(n), given / 2), 262144);
    RoundUpLeast(Max(Min(RoundUp(Max(InitialSlice(n), given / 2), ALIGNMENT), MAX_SLICE), len), ALIGNMENT);
  }

  /** What must have been given out after twice as many slices. */
  function Paces(given: nat): nat {
    given + Max(64, Min(given / 2, 262144))
  }

  function Least(k: nat): nat {
    if k == 0 then 0 else Paces(Least(k - 1))
  }

  lemma {:induction false} PacesMonotone(a: nat, b: nat)
    requires a <= b
    ensures Paces(a) <= Paces(b)
  {
  }

  /** A slice is opened only when the one before it is used up, so the bytes given
      out grow with the number of slices. */
  ghost predicate PacedAt(m: nat, given: nat, used: nat, cap: nat) {
    m > 0 ==>
      && used <= given && cap >= Max(64, Min((given - used) / 2, 262144))
      && given - used >= Least((m - 1) / 2) && given >= Least(m / 2)
  }

  ghost predicate Paced(b: Bump) {
    PacedAt(|b.caps|, b.given, b.used, b.cap)
  }

  lemma {:induction false} PacedOpen(m: nat, given: nat, used: nat, cap: nat, len: nat, size: nat)
    requires PacedAt(m, given, used, cap) && (m > 0 ==> used + len > cap) && size >= Max(64, Min(given / 2, 262144))
    ensures PacedAt(m + 1, given + len, len, size)
  {
    if m > 0 {
      PacesMonotone(Least((m - 1) / 2), given - used);
      assert (m + 1) / 2 - 1 == (m - 1) / 2;
    }
  }

  lemma {:induction false} TakePaced(b: Bump, n: nat, len: nat)
    requires b.Ok() && Paced(b)
    ensures Paced(b.Take(n, len))
  {
    if len > 0 && !b.Fits(len) {
      NextSliceSize(n, b.given, len);
      PacedOpen(|b.caps|, b.given, b.used, b.cap, len, NextSlice(n, b.given, len));
    }
  }

  lemma {:induction false} TakeAllPaced(n: nat, lens: seq<nat>)
    requires forall i :: 0 <= i < |lens| ==> lens[i] <= STRING_MAX
    ensures Paced(TakeAll(FRESH, n, lens)) && TakeAll(FRESH, n, lens).given == Sum(lens)
  {
    if lens != [] {
      var front := lens[..|lens| - 1];
      TakeAllPaced(n, front);
      RetiredBound(n, front);
      RetiredBound(n, lens);
      TakePaced(TakeAll(FRESH, n, front), n, lens[|lens| - 1]);
    }
  }

  lemma {:induction false} SomePowers()
    ensures Pow2(12) == 4096 && Pow2(13) == 8192
  {
    assert Pow2(4) == 16 && Pow2(8) == 256;
  }

  lemma {:induction false} LeastTwice(k: nat)
    ensures Least(k + 2) == Paces(Paces(Least(k)))
  {
  }

  /** Until 512 KiB are given out, four slices double them. */
  lemma {:induction false} LeastDoubles(j: nat)
    requires j <= 13
    ensures Least(1 + 2 * j) >= 64 * Pow2(j)
  {
    if j > 0 {
      LeastDoubles(j - 1);
      PowMonotone(j - 1, 12);
      SomePowers();
      PacesDouble(64 * Pow2(j - 1), Least(1 + 2 * (j - 1)));
      LeastTwice(1 + 2 * (j - 1));
    } else {
      assert Least(1) == Paces(Least(0));
    }
  }

  lemma {:induction false} PacesDouble(a: nat, b: nat)
    requires 0 < a <= 262144 && a <= b && a >= 64
    ensures Paces(Paces(b)) >= 2 * a
  {
    PacesMonotone(a, b);
    PacesMonotone(Paces(a), Paces(b));
  }

  /** From then on two slices give out 256 KiB. */
  lemma {:induction false} LeastGrows(i: nat)
    ensures Least(27 + i) >= 524288 + 262144 * i
  {
    if i == 0 {
      LeastDoubles(13);
      SomePowers();
    } else {
      LeastGrows(i - 1);
    }
  }

  /** Slices are few: two for every 256 KiB asked for, and 54 more. */
  lemma {:induction false} SlicesFew(n: nat, lens: seq<nat>)
    requires forall i :: 0 <= i < |lens| ==> lens[i] <= STRING_MAX
    ensures |TakeAll(FRESH, n, lens).caps| <= 54 + 2 * (Sum(lens) / 262144)
  {
    var b := TakeAll(FRESH, n, lens);
    TakeAllPaced(n, lens);
    if |b.caps| > 54 {
      FewFor(|b.caps|, Sum(lens));
    }
  }

  lemma {:induction false} FewFor(m: nat, given: nat)
    requires m > 54 && given >= Least((m - 1) / 2)
    ensures m <= 54 + 2 * (given / 262144)
  {
    LeastGrows((m - 1) / 2 - 27);
    assert given / 262144 >= 2 + (m - 1) / 2 - 27;
  }

  // The Writer's cursor.

  datatype Cursor = Cursor(left: nat, used: nat, size: nat)

  const START := Cursor(0, 0, 0)

  /** What one request for space does: the size of a slice it opens, and the offset it returns. */
  datatype Grant = Grant(newSlice: Option<nat>, offset: nat)

  function Reserve(c: Cursor, n: nat, len: nat): (Cursor, Grant) {
    if len == 0 then (c, Grant(None, 0))
    else if len > c.left then
      var size := NextSlice(n, c.used, len);
      (Cursor(if len <= size then size - len else 0, c.used + len, size), Grant(Some(size), 0))
    else
      (Cursor(c.left - len, c.used + len, c.size), Grant(None, if c.left <= c.size then c.size - c.left else 0))
  }

  function Allocate(b: Bump, n: nat, len: nat): (Bump, Grant) {
    (b.Take(n, len),
     if len == 0 then Grant(None, 0)
     else if b.Fits(len) then Grant(None, b.used)
     else Grant(Some(NextSlice(n, b.given, len)), 0))
  }

  function WriterGrants(c: Cursor, n: nat, lens: seq<nat>): seq<Grant>
    decreases |lens|
  {
    if lens == [] then [] else
      var (c', g) := Reserve(c, n, lens[0]);
      [g] + WriterGrants(c', n, lens[1..])
  }

  function BuilderGrants(b: Bump, n: nat, lens: seq<nat>): seq<Grant>
    decreases |lens|
  {
    if lens == [] then [] else
      var (b', g) := Allocate(b, n, lens[0]);
      [g] + BuilderGrants(b', n, lens[1..])
  }

  /** The same place in the same slice. */
  ghost predicate Matches(c: Cursor, b: Bump) {
    b.Ok() && c.used == b.given && c.left == b.cap - b.used && (b.caps != [] ==> c.size == b.cap) && (b.caps == [] ==> b.used == 0)
  }

  lemma {:induction false} MatchStep(c: Cursor, b: Bump, n: nat, len: nat)
    requires Matches(c, b) && len <= STRING_MAX
    ensures Reserve(c, n, len).1 == Allocate(b, n, len).1
    ensures Matches(Reserve(c, n, len).0, Allocate(b, n, len).0)
  {
    if len > 0 && !b.Fits(len) {
      NextSliceFits(n, b.given, len);
    }
  }

  /** For the same lengths and vector size, the Writer opens the same slices and
      hands out the same offsets as a builder, from matching cursors on. */
  lemma {:induction false} WriterMatchesBuilder(c: Cursor, b: Bump, n: nat, lens: seq<nat>)
    requires Matches(c, b) && forall i :: 0 <= i < |lens| ==> lens[i] <= STRING_MAX
    ensures WriterGrants(c, n, lens) == BuilderGrants(b, n, lens)
    decreases |lens|
  {
    if lens != [] {
      MatchStep(c, b, n, lens[0]);
      WriterMatchesBuilder(Reserve(c, n, lens[0]).0, Allocate(b, n, lens[0]).0, n, lens[1..]);
    }
  }
}
