/** Runs of chain operations on the heap: the linked chains are what the ledger says. */
module ChainRuns {
  import opened Chain
  import opened Ownership

  ghost predicate InRange(ids: seq<nat>, n: nat) {
    forall i :: 0 <= i < |ids| ==> ids[i] < n
  }

  /** The slices with these numbers: all lists them in the order they were opened. */
  ghost function Named(all: seq<Slice>, ids: seq<nat>): (nodes: seq<Slice>)
    requires InRange(ids, |all|)
    ensures |nodes| == |ids|
  {
    seq(|ids|, i requires 0 <= i < |ids| && InRange(ids, |all|) => all[ids[i]])
  }

  /** The chain is a sound list of the slices with these numbers. */
  ghost predicate ChainIs(chain: SliceChain, ids: seq<nat>, all: seq<Slice>)
    reads chain, all
  {
    InRange(ids, |all|) && chain.nodes == Named(all, ids) && chain.Valid()
  }

  /** Exactly the slices the ledger lists as freed were given back. */
  ghost predicate FreedAre(all: seq<Slice>, freed: seq<nat>)
    reads all
  {
    InRange(freed, |all|) && forall s :: 0 <= s < |all| ==> (all[s].freed <==> s in freed)
  }

  ghost predicate DistinctChains(chains: seq<SliceChain>) {
    forall c, d :: 0 <= c < d < |chains| ==> chains[c] != chains[d]
  }

  /** The ledger accounts for every slice there is. */
  ghost predicate Accounts(l: Ledger, all: seq<Slice>) {
    |all| == l.made && Distinct(all) && forall s: nat :: Accounted(l, s)
  }

  ghost predicate AllAre(chains: seq<SliceChain>, ids: seq<seq<nat>>, all: seq<Slice>)
    reads chains, all
  {
    |chains| == |ids| && forall c :: 0 <= c < |chains| ==> ChainIs(chains[c], ids[c], all)
  }

  /** The heap is what the ledger says. */
  ghost predicate Agrees(chains: seq<SliceChain>, l: Ledger, all: seq<Slice>)
    reads chains, all
  {
    Accounts(l, all) && FreedAre(all, l.freed) && DistinctChains(chains) && AllAre(chains, l.chains, all)
  }

  lemma {:induction false} NamedJoin(all: seq<Slice>, a: seq<nat>, b: seq<nat>)
    requires InRange(a, |all|) && InRange(b, |all|)
    ensures InRange(a + b, |all|) && Named(all, a + b) == Named(all, a) + Named(all, b)
  {
  }

  lemma {:induction false} NamedMore(all: seq<Slice>, slice: Slice, ids: seq<nat>)
    requires InRange(ids, |all|)
    ensures InRange(ids, |all + [slice]|) && Named(all + [slice], ids) == Named(all, ids)
  {
  }

  lemma {:induction false} HeldOnce(chains: seq<seq<nat>>, c: nat, s: nat)
    requires c < |chains|
    ensures Times(chains[c], s) <= Held(chains, s)
  {
    if c < |chains| - 1 {
      HeldOnce(chains[..|chains| - 1], c, s);
    }
  }

  lemma {:induction false} HeldTwice(chains: seq<seq<nat>>, c: nat, d: nat, s: nat)
    requires c < d < |chains|
    ensures Times(chains[c], s) + Times(chains[d], s) <= Held(chains, s)
  {
    if d < |chains| - 1 {
      HeldTwice(chains[..|chains| - 1], c, d, s);
    } else {
      HeldOnce(chains[..|chains| - 1], c, s);
    }
  }

  /** Chains that a ledger accounts for have no slice in common. */
  lemma {:induction false} AccountedApart(l: Ledger, all: seq<Slice>, c: nat, d: nat)
    requires Accounts(l, all) && c < |l.chains| && d < |l.chains| && c != d
    requires InRange(l.chains[c], |all|) && InRange(l.chains[d], |all|)
    ensures Apart(Named(all, l.chains[c]), Named(all, l.chains[d]))
  {
    var a, b := l.chains[c], l.chains[d];
    forall i, j | 0 <= i < |a| && 0 <= j < |b|
      ensures a[i] != b[j]
    {
      var s := a[i];
      assert s in multiset(a) && Accounted(l, s);
      if s == b[j] {
        assert s in multiset(b);
        HeldTwice(l.chains, if c < d then c else d, if c < d then d else c, s);
      }
    }
  }

  /** Chains the heap and the ledger agree on have no slice in common. */
  lemma {:induction false} AgreedApart(chains: seq<SliceChain>, l: Ledger, all: seq<Slice>, c: nat, d: nat)
    requires Agrees(chains, l, all) && c < |chains| && d < |chains| && c != d
    ensures chains[c] != chains[d] && Apart(chains[c].nodes, chains[d].nodes)
  {
    assert ChainIs(chains[c], l.chains[c], all) && ChainIs(chains[d], l.chains[d], all);
    AccountedApart(l, all, c, d);
  }

  lemma {:induction false} AllAgreedApart(chains: seq<SliceChain>, l: Ledger, all: seq<Slice>, c: nat)
    requires Agrees(chains, l, all) && c < |chains|
    ensures forall e :: 0 <= e < |chains| && e != c ==> chains[e] != chains[c] && Apart(chains[e].nodes, chains[c].nodes)
  {
    forall e | 0 <= e < |chains| && e != c
      ensures chains[e] != chains[c] && Apart(chains[e].nodes, chains[c].nodes)
    {
      AgreedApart(chains, l, all, e, c);
    }
  }

  lemma {:induction false} StepAccounts(l: Ledger, op: Op, all: seq<Slice>, more: seq<Slice>)
    requires Accounts(l, all) && Distinct(more) && |more| == Step(l, op).made
    ensures Accounts(Step(l, op), more)
  {
    forall s: nat
      ensures Accounted(Step(l, op), s)
    {
      StepAccounted(l, op, s);
    }
  }

  method NewChain(chains: seq<SliceChain>, ghost l: Ledger, ghost all: seq<Slice>) returns (chain: SliceChain)
    requires Agrees(chains, l, all)
    ensures fresh(chain) && Agrees(chains + [chain], Step(l, New), all)
  {
    StepAccounts(l, New, all, all);
    chain := new SliceChain();
  }

  method PushSlice(chains: seq<SliceChain>, c: nat, size: nat, ghost l: Ledger, ghost all: seq<Slice>) returns (ghost slice: Slice)
    requires Agrees(chains, l, all) && c < |chains|
    modifies chains[c]
    ensures fresh(slice) && Agrees(chains, Step(l, Push(c, size)), all + [slice])
  {
    ghost var nodes := chains[c].nodes;
    assert ChainIs(chains[c], l.chains[c], all);
    var data := chains[c].PushFront(size);
    slice := chains[c].nodes[0];
    ghost var more := all + [slice];
    assert chains[c].nodes == [slice] + nodes;
    NamedMore(all, slice, l.chains[c]);
    NamedJoin(more, [l.made], l.chains[c]);
    assert Named(more, [l.made]) == [slice];
    StepAccounts(l, Push(c, size), all, more);
    forall d | 0 <= d < |chains| && d != c
      ensures ChainIs(chains[d], l.chains[d], more)
    {
      assert ChainIs(chains[d], l.chains[d], all);
      NamedMore(all, slice, l.chains[d]);
    }
  }

  /** Prepending hands chain d's slices to chain c. */
  method PrependChain(chains: seq<SliceChain>, c: nat, d: nat, ghost l: Ledger, ghost all: seq<Slice>)
    requires Agrees(chains, l, all) && c < |chains| && d < |chains|
    modifies chains[c], chains[d], chains[d].nodes`next
    ensures Agrees(chains, Step(l, Prepend(c, d)), all)
  {
    assert ChainIs(chains[c], l.chains[c], all) && ChainIs(chains[d], l.chains[d], all);
    AllAgreedApart(chains, l, all, d);
    chains[c].Prepend(chains[d]);
    NamedJoin(all, l.chains[d], l.chains[c]);
    StepAccounts(l, Prepend(c, d), all, all);
    forall e | 0 <= e < |chains| && e != c && e != d
      ensures ChainIs(chains[e], l.chains[e], all)
    {
      assert old(ChainIs(chains[e], l.chains[e], all));
    }
  }

  lemma {:induction false} InNamed(all: seq<Slice>, ids: seq<nat>, s: nat)
    requires Distinct(all) && InRange(ids, |all|) && s < |all|
    ensures all[s] in Named(all, ids) <==> s in ids
  {
    if s in ids {
      var i :| 0 <= i < |ids| && ids[i] == s;
      assert Named(all, ids)[i] == all[s];
    }
    if all[s] in Named(all, ids) {
      var i :| 0 <= i < |ids| && all[ids[i]] == all[s];
    }
  }

  /** These slices were given back, and no others. */
  twostate lemma FreedMore(new all: seq<Slice>, new freed: seq<nat>, new ids: seq<nat>)
    requires old(allocated(all)) && Distinct(all) && old(FreedAre(all, freed)) && InRange(ids, |all|)
    requires forall i :: 0 <= i < |ids| ==> all[ids[i]].freed
    requires forall s :: 0 <= s < |all| ==> all[s] !in Named(all, ids) ==> all[s].freed == old(all[s].freed)
    ensures FreedAre(all, freed + ids)
  {
    forall s | 0 <= s < |all|
      ensures all[s].freed <==> s in freed + ids
    {
      InNamed(all, ids, s);
    }
  }

  /** Clearing gives the chain's slices back. */
  method ClearChain(chains: seq<SliceChain>, c: nat, ghost l: Ledger, ghost all: seq<Slice>)
    requires Agrees(chains, l, all) && c < |chains|
    modifies chains[c], chains[c].nodes`freed
    ensures Agrees(chains, Step(l, Clear(c)), all)
  {
    ghost var nodes := chains[c].nodes;
    assert ChainIs(chains[c], l.chains[c], all);
    AllAgreedApart(chains, l, all, c);
    chains[c].Clear();
    forall i | 0 <= i < |l.chains[c]|
      ensures all[l.chains[c][i]].freed
    {
      assert nodes[i].freed;
    }
    FreedMore(all, l.freed, l.chains[c]);
    StepAccounts(l, Clear(c), all, all);
    forall e | 0 <= e < |chains| && e != c
      ensures ChainIs(chains[e], l.chains[e], all)
    {
      assert old(ChainIs(chains[e], l.chains[e], all));
    }
  }

  /** Assigning chain d to chain c frees what c had. */
  method AssignChain(chains: seq<SliceChain>, c: nat, d: nat, ghost l: Ledger, ghost all: seq<Slice>)
    requires Agrees(chains, l, all) && c < |chains| && d < |chains| && c != d
    modifies chains[c], chains[c].nodes`freed, chains[d]
    ensures Agrees(chains, Step(l, MoveAssign(c, d)), all)
  {
    ghost var nodes := chains[c].nodes;
    assert ChainIs(chains[c], l.chains[c], all) && ChainIs(chains[d], l.chains[d], all);
    AllAgreedApart(chains, l, all, c);
    AgreedApart(chains, l, all, c, d);
    chains[c].MoveAssign(chains[d]);
    forall i | 0 <= i < |l.chains[c]|
      ensures all[l.chains[c][i]].freed
    {
      assert nodes[i].freed;
    }
    FreedMore(all, l.freed, l.chains[c]);
    StepAccounts(l, MoveAssign(c, d), all, all);
    forall e | 0 <= e < |chains| && e != c && e != d
      ensures ChainIs(chains[e], l.chains[e], all)
    {
      assert old(ChainIs(chains[e], l.chains[e], all));
    }
  }

  /** A new chain takes over chain d's slices. */
  method MoveChain(chains: seq<SliceChain>, d: nat, ghost l: Ledger, ghost all: seq<Slice>) returns (chain: SliceChain)
    requires Agrees(chains, l, all) && d < |chains|
    modifies chains[d]
    ensures fresh(chain) && Agrees(chains + [chain], Step(l, MoveConstruct(d)), all)
  {
    assert ChainIs(chains[d], l.chains[d], all);
    chain := new SliceChain.Move(chains[d]);
    StepAccounts(l, MoveConstruct(d), all, all);
    forall e | 0 <= e < |chains| && e != d
      ensures ChainIs(chains[e], l.chains[e], all)
    {
      assert old(ChainIs(chains[e], l.chains[e], all));
    }
  }

  /** Assigning a new chain, which is empty, frees what c had. */
  method RenewChain(chains: seq<SliceChain>, c: nat, ghost l: Ledger, ghost all: seq<Slice>)
    requires Agrees(chains, l, all) && c < |chains|
    modifies chains[c], chains[c].nodes`freed
    ensures Agrees(chains, Step(l, Renew(c)), all)
  {
    var chain := NewChain(chains, l, all);
    AssignChain(chains + [chain], c, |chains|, Step(l, New), all);
    RenewIsAssign(l, c);
    StepAccounts(l, Renew(c), all, all);
    WithoutLast(chains, chain, Step(l, Renew(c)), all);
  }

  lemma {:induction false} RenewIsAssign(l: Ledger, c: nat)
    requires c < |l.chains|
    ensures Step(Step(l, New), MoveAssign(c, |l.chains|)) == Step(l, Renew(c)).(chains := Step(l, Renew(c)).chains + [[]])
  {
    assert (l.chains + [[]])[c := []][|l.chains| := []] == l.chains[c := []] + [[]];
  }

  lemma {:induction false} WithoutLast(chains: seq<SliceChain>, chain: SliceChain, l: Ledger, all: seq<Slice>)
    requires Agrees(chains + [chain], l.(chains := l.chains + [[]]), all) && Accounts(l, all) && |chains| == |l.chains|
    ensures Agrees(chains, l, all)
  {
    var wide := chains + [chain];
    forall c | 0 <= c < |chains|
      ensures ChainIs(chains[c], l.chains[c], all) && wide[c] == chains[c]
    {
      assert ChainIs(wide[c], (l.chains + [[]])[c], all);
    }
  }

  /** The chains and every slice are among these. */
  ghost predicate Holds(own: set<object>, chains: seq<SliceChain>, all: seq<Slice>) {
    (forall c :: 0 <= c < |chains| ==> chains[c] in own) && forall s :: 0 <= s < |all| ==> all[s] in own
  }

  /** One operation moves the heap by one step of the ledger. */
  method StepChains(chains: seq<SliceChain>, op: Op, ghost l: Ledger, ghost all: seq<Slice>, ghost own: set<object>)
    returns (more: seq<SliceChain>, ghost every: seq<Slice>, ghost owned: set<object>)
    requires Agrees(chains, l, all) && Holds(own, chains, all)
    modifies own
    ensures Agrees(more, Step(l, op), every) && chains <= more && all <= every
    ensures Holds(owned, more, every) && own <= owned && fresh(owned - own)
  {
    more, every, owned := chains, all, own;
    var n := |chains|;
    match op
    case New =>
      var chain := NewChain(chains, l, all);
      more, owned := chains + [chain], own + {chain};
    case Push(c, size) =>
      if c < n {
        ghost var slice := PushSlice(chains, c, size, l, all);
        every, owned := all + [slice], own + {slice};
      }
    case Prepend(c, d) =>
      if c < n && d < n {
        assert ChainIs(chains[d], l.chains[d], all);
        PrependChain(chains, c, d, l, all);
      }
    case MoveAssign(c, d) =>
      if c < n && d < n && c != d {
        assert ChainIs(chains[c], l.chains[c], all);
        AssignChain(chains, c, d, l, all);
      }
    case MoveConstruct(d) =>
      if d < n {
        var chain := MoveChain(chains, d, l, all);
        more, owned := chains + [chain], own + {chain};
      }
    case Clear(c) =>
      if c < n {
        assert ChainIs(chains[c], l.chains[c], all);
        ClearChain(chains, c, l, all);
      }
    case Renew(c) =>
      if c < n {
        assert ChainIs(chains[c], l.chains[c], all);
        RenewChain(chains, c, l, all);
      }
  }

  /** Any run of chain operations on the heap is the ledger's run: the chains are
      sound lists with no slice in common, and exactly the slices the ledger lists
      were given back. No operation ever finds its chains tangled. */
  method RunChains(chains: seq<SliceChain>, ops: seq<Op>, ghost l: Ledger, ghost all: seq<Slice>, ghost own: set<object>)
    returns (more: seq<SliceChain>, ghost every: seq<Slice>, ghost owned: set<object>)
    requires Agrees(chains, l, all) && Holds(own, chains, all)
    modifies own
    ensures Agrees(more, Run(l, ops), every) && chains <= more && all <= every
    ensures Holds(owned, more, every) && own <= owned && fresh(owned - own)
  {
    more, every, owned := chains, all, own;
    var k := 0;
    while k < |ops|
      invariant k <= |ops| && Agrees(more, Run(l, ops[..k]), every) && chains <= more && all <= every
      invariant Holds(owned, more, every) && own <= owned && fresh(owned - own)
    {
      assert ops[..k + 1][..k] == ops[..k];
      more, every, owned := StepChains(more, ops[k], Run(l, ops[..k]), every, owned);
      k := k + 1;
    }
    assert ops[..k] == ops;
  }

  /** Once every chain is empty, every slice ever opened was given back. */
  lemma {:induction false} AllFreed(chains: seq<SliceChain>, l: Ledger, all: seq<Slice>)
    requires Agrees(chains, l, all) && forall c :: 0 <= c < |chains| ==> chains[c].nodes == []
    ensures forall s :: 0 <= s < |all| ==> all[s].freed
  {
    forall c | 0 <= c < |l.chains|
      ensures l.chains[c] == []
    {
      assert ChainIs(chains[c], l.chains[c], all);
    }
    forall s | 0 <= s < |all|
      ensures all[s].freed
    {
      EmptyHolds(l.chains, s);
      assert Accounted(l, s) && s in multiset(l.freed);
    }
  }
}
