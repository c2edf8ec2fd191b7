/** Who owns each slice, over any run of chain operations. */
module Ownership {

  /** The chains by what they hold, the slices given back, and how many were ever
      opened. Slices are numbered in the order they are opened. */
  datatype Ledger = Ledger(chains: seq<seq<nat>>, freed: seq<nat>, made: nat)

  /** The chain operations: pushing opens a slice, prepending and moving hand
      slices over, clearing (as destroying does) gives them back, and renewing, as
      resetting a builder or finishing a shard does, assigns a new chain. */
  datatype Op =
    | New
    | Push(c: nat, size: nat)
    | Prepend(c: nat, d: nat)
    | MoveAssign(c: nat, d: nat)
    | MoveConstruct(d: nat)
    | Clear(c: nat)
    | Renew(c: nat)

  function Drop(l: Ledger, c: nat): Ledger {
    if c < |l.chains| then l.(chains := l.chains[c := []], freed := l.freed + l.chains[c]) else l
  }

  function Step(l: Ledger, op: Op): Ledger {
    var n := |l.chains|;
    match op
    case New => l.(chains := l.chains + [[]])
    case Push(c, _) =>
      if c < n then l.(chains := l.chains[c := [l.made] + l.chains[c]], made := l.made + 1) else l
    case Prepend(c, d) =>
      if c < n && d < n && c != d then l.(chains := l.chains[c := l.chains[d] + l.chains[c]][d := []]) else l
    case MoveAssign(c, d) =>
      if c < n && d < n && c != d then l.(chains := l.chains[c := l.chains[d]][d := []], freed := l.freed + l.chains[c]) else l
    case MoveConstruct(d) =>
      if d < n then l.(chains := l.chains[d := []] + [l.chains[d]]) else l
    case Clear(c) => Drop(l, c)
    case Renew(c) => Drop(l, c)
  }

  function Run(l: Ledger, ops: seq<Op>): Ledger {
    if ops == [] then l else Step(Run(l, ops[..|ops| - 1]), ops[|ops| - 1])
  }

  /** How often slice s is listed. */
  function Times(xs: seq<nat>, s: nat): nat {
    multiset(xs)[s]
  }

  /** How often the chains hold slice s. */
  function Held(chains: seq<seq<nat>>, s: nat): nat {
    if chains == [] then 0 else Held(chains[..|chains| - 1], s) + Times(chains[|chains| - 1], s)
  }

  /** Every slice ever opened is in one place: once in one chain, or given back once. */
  ghost predicate Accounted(l: Ledger, s: nat) {
    Held(l.chains, s) + Times(l.freed, s) == if s < l.made then 1 else 0
  }

  lemma {:induction false} TimesJoin(a: seq<nat>, b: seq<nat>, s: nat)
    ensures Times(a + b, s) == Times(a, s) + Times(b, s)
  {
  }

  lemma {:induction false} HeldSnoc(chains: seq<seq<nat>>, c: seq<nat>, s: nat)
    ensures Held(chains + [c], s) == Held(chains, s) + Times(c, s)
  {
    assert (chains + [c])[..|chains|] == chains;
  }

  lemma {:induction false} HeldUpdate(chains: seq<seq<nat>>, c: nat, xs: seq<nat>, s: nat)
    requires c < |chains|
    ensures Held(chains[c := xs], s) == Held(chains, s) - Times(chains[c], s) + Times(xs, s)
  {
    var n := |chains| - 1;
    if c < n {
      HeldUpdate(chains[..n], c, xs, s);
      assert chains[c := xs][..n] == chains[..n][c := xs];
    } else {
      assert chains[c := xs][..n] == chains[..n];
    }
  }

  /** Handing chain d's slices to chain c, in front of what it keeps, moves them and nothing else. */
  lemma {:induction false} HeldHandOver(chains: seq<seq<nat>>, c: nat, d: nat, kept: seq<nat>, s: nat)
    requires c < |chains| && d < |chains| && c != d
    ensures Held(chains[c := chains[d] + kept][d := []], s) == Held(chains, s) - Times(chains[c], s) + Times(kept, s)
  {
    HeldUpdate(chains, c, chains[d] + kept, s);
    HeldUpdate(chains[c := chains[d] + kept], d, [], s);
    TimesJoin(chains[d], kept, s);
  }

  lemma {:induction false} DropAccounted(l: Ledger, c: nat, s: nat)
    requires Accounted(l, s)
    ensures Accounted(Drop(l, c), s)
  {
    if c < |l.chains| {
      HeldUpdate(l.chains, c, [], s);
      TimesJoin(l.freed, l.chains[c], s);
    }
  }

  /** Each operation conserves every slice. */
  lemma {:induction false} StepAccounted(l: Ledger, op: Op, s: nat)
    requires Accounted(l, s)
    ensures Accounted(Step(l, op), s)
  {
    var n := |l.chains|;
    match op
    case New =>
      HeldSnoc(l.chains, [], s);
    case Push(c, _) =>
      if c < n {
        HeldUpdate(l.chains, c, [l.made] + l.chains[c], s);
        TimesJoin([l.made], l.chains[c], s);
      }
    case Prepend(c, d) =>
      if c < n && d < n && c != d {
        HeldHandOver(l.chains, c, d, l.chains[c], s);
      }
    case MoveAssign(c, d) =>
      if c < n && d < n && c != d {
        HeldHandOver(l.chains, c, d, [], s);
        assert l.chains[d] + [] == l.chains[d];
        TimesJoin(l.freed, l.chains[c], s);
      }
    case MoveConstruct(d) =>
      if d < n {
        HeldUpdate(l.chains, d, [], s);
        HeldSnoc(l.chains[d := []], l.chains[d], s);
      }
    case Clear(c) => DropAccounted(l, c, s);
    case Renew(c) => DropAccounted(l, c, s);
  }

  /** Over any run every slice ever opened is in exactly one chain, once, until it
      is given back, once. */
  lemma {:induction false} RunAccounted(l: Ledger, ops: seq<Op>, s: nat)
    requires Accounted(l, s)
    ensures Accounted(Run(l, ops), s)
  {
    if ops != [] {
      RunAccounted(l, ops[..|ops| - 1], s);
      StepAccounted(Run(l, ops[..|ops| - 1]), ops[|ops| - 1], s);
    }
  }

  /** A slice given back stays given back: no chain ever holds it again. */
  lemma {:induction false} FreedForGood(l: Ledger, ops: seq<Op>, s: nat)
    requires Accounted(l, s) && Times(l.freed, s) > 0
    ensures Times(Run(l, ops).freed, s) == 1 && Held(Run(l, ops).chains, s) == 0
  {
    RunAccounted(l, ops, s);
    FreedGrows(l, ops, s);
  }

  lemma {:induction false} FreedGrows(l: Ledger, ops: seq<Op>, s: nat)
    ensures Times(l.freed, s) <= Times(Run(l, ops).freed, s)
    ensures l.made <= Run(l, ops).made
  {
    if ops != [] {
      var m := Run(l, ops[..|ops| - 1]);
      FreedGrows(l, ops[..|ops| - 1], s);
      match ops[|ops| - 1]
      case MoveAssign(c, d) => if c < |m.chains| { TimesJoin(m.freed, m.chains[c], s); }
      case Clear(c) => if c < |m.chains| { TimesJoin(m.freed, m.chains[c], s); }
      case Renew(c) => if c < |m.chains| { TimesJoin(m.freed, m.chains[c], s); }
      case _ =>
    }
  }

  /** Once every chain is empty, every slice ever opened has been given back exactly once. */
  lemma {:induction false} NothingLeaks(l: Ledger, ops: seq<Op>, s: nat)
    requires Accounted(l, s)
    requires forall c :: 0 <= c < |Run(l, ops).chains| ==> Run(l, ops).chains[c] == []
    ensures Times(Run(l, ops).freed, s) == if s < Run(l, ops).made then 1 else 0
  {
    RunAccounted(l, ops, s);
    EmptyHolds(Run(l, ops).chains, s);
  }

  lemma {:induction false} EmptyHolds(chains: seq<seq<nat>>, s: nat)
    requires forall c :: 0 <= c < |chains| ==> chains[c] == []
    ensures Held(chains, s) == 0
  {
    if chains != [] {
      EmptyHolds(chains[..|chains| - 1], s);
    }
  }
}
