/** The process-wide registry of wallet adapters: the last registration wins, and disposers undo only their own. */
module AdapterRegistry {
  import opened Basics

  /** An adapter object; == on references is JavaScript's ===. */
  class WalletAdapter {
    const chain: string
    /** resolveWallet and isValidAddress are both callable. */
    const implements: bool

    constructor (chain: string, implements: bool)
      ensures this.chain == chain && this.implements == implements
    {
      this.chain, this.implements := chain, implements;
    }

    constructor Solana(network: string)
      requires IsSolanaNetwork(network)
      ensures chain == SolanaChain(network) && implements
    {
      chain, implements := SolanaChain(network), true;
    }
  }

  predicate IsSolanaNetwork(network: string) {
    network in ["mainnet-beta", "devnet", "testnet", "localnet"]
  }

  function SolanaChain(network: string): string {
    "solana:" + network
  }

  predicate Acceptable(a: WalletAdapter) {
    a.chain != "" && a.implements
  }

  // ----- The registry on values -----

  /** registered lists the accepted registrations in order; disposed holds the positions whose disposer ran. */
  datatype State = State(registered: seq<WalletAdapter>, disposed: set<nat>, entries: map<string, WalletAdapter>)

  datatype Event = Register(adapter: WalletAdapter) | Dispose(registration: nat)

  function Lookup(s: State, chain: string): Option<WalletAdapter> {
    if chain in s.entries then Some(s.entries[chain]) else None
  }

  function Step(s: State, e: Event): State {
    match e
    case Register(a) =>
      if Acceptable(a) then State(s.registered + [a], s.disposed, s.entries[a.chain := a]) else s
    case Dispose(k) =>
      if k >= |s.registered| || k in s.disposed then s
      else
        var a := s.registered[k];
        State(s.registered, s.disposed + {k},
              if Lookup(s, a.chain) == Some(a) then s.entries - {a.chain} else s.entries)
  }

  function Run(s: State, events: seq<Event>): State {
    if events == [] then s else Step(Run(s, events[..|events| - 1]), events[|events| - 1])
  }

  /** The position of the latest registration for a chain. */
  function Latest(registered: seq<WalletAdapter>, chain: string): (k: Option<nat>)
    ensures k.Some? ==> k.value < |registered| && registered[k.value].chain == chain
  {
    if registered == [] then None
    else if registered[|registered| - 1].chain == chain then Some(|registered| - 1)
    else Latest(registered[..|registered| - 1], chain)
  }

  lemma {:induction false} LatestIsLast(registered: seq<WalletAdapter>, chain: string)
    ensures var k := Latest(registered, chain);
            forall j :: 0 <= j < |registered| && registered[j].chain == chain ==> k.Some? && j <= k.value
  {
    if registered != [] {
      LatestIsLast(registered[..|registered| - 1], chain);
    }
  }

  /** What a lookup promises: the latest registration of the chain, unless its own disposer ran. */
  function Promised(s: State, chain: string): Option<WalletAdapter> {
    var k := Latest(s.registered, chain);
    if k.None? || k.value in s.disposed then None else Some(s.registered[k.value])
  }

  ghost predicate Faithful(s: State) {
    && (forall k :: k in s.disposed ==> k < |s.registered|)
    && (forall chain :: Lookup(s, chain) == Promised(s, chain))
  }

  lemma LatestAfter(registered: seq<WalletAdapter>, a: WalletAdapter, chain: string)
    ensures Latest(registered + [a], chain)
         == if a.chain == chain then Some(|registered|) else Latest(registered, chain)
  {
    assert (registered + [a])[..|registered|] == registered;
  }

  lemma RegisterFaithful(s: State, a: WalletAdapter)
    requires Faithful(s)
    ensures Faithful(Step(s, Register(a)))
  {
    var after := Step(s, Register(a));
    if Acceptable(a) {
      forall chain
        ensures Lookup(after, chain) == Promised(after, chain)
      {
        LatestAfter(s.registered, a, chain);
        assert Lookup(s, chain) == Promised(s, chain);
      }
    }
  }

  /** Disposer k, not yet run, would take down the entry of another registration, made with the same object. */
  predicate RemovesAnother(s: State, k: nat) {
    && k < |s.registered| && k !in s.disposed
    && var j := Latest(s.registered, s.registered[k].chain);
       j.Some? && j.value != k && j.value !in s.disposed && s.registered[j.value] == s.registered[k]
  }

  /** Running a disposer keeps every promise exactly when the object was not registered again since. */
  lemma DisposeFaithful(s: State, k: nat)
    requires Faithful(s)
    ensures Faithful(Step(s, Dispose(k))) <==> !RemovesAnother(s, k)
  {
    var after := Step(s, Dispose(k));
    if k < |s.registered| && k !in s.disposed {
      var own := s.registered[k].chain;
      LatestIsLast(s.registered, own);
      assert Lookup(s, own) == Promised(s, own);
      if RemovesAnother(s, k) {
        assert Lookup(after, own) != Promised(after, own);
      } else {
        forall chain
          ensures Lookup(after, chain) == Promised(after, chain)
        {
          assert Lookup(s, chain) == Promised(s, chain);
        }
      }
    }
  }

  /**
   One object registered twice: the first disposer empties the chain although the
   second registration still stands.
   */
  lemma RegisteredTwice(a: WalletAdapter)
    requires Acceptable(a)
    ensures var s := Run(State([], {}, map[]), [Register(a), Register(a), Dispose(0)]);
            Lookup(s, a.chain) == None && Promised(s, a.chain) == Some(a)
  {
    var s0 := State([], {}, map[]);
    var events := [Register(a), Register(a), Dispose(0)];
    assert events[..2][..1] == events[..1] && events[..1][..0] == [];
    assert Run(s0, events[..1]) == State([a], {}, map[a.chain := a]);
    assert Run(s0, events[..2]) == State([a, a], {}, map[a.chain := a]);
  }

  lemma DistinctNeverRemovesAnother(s: State, k: nat)
    requires Distinct(s.registered)
    ensures !RemovesAnother(s, k)
  {
  }

  lemma RegisteredGrows(s: State, e: Event)
    ensures s.registered <= Step(s, e).registered
  {
  }

  /** In every run in which no object is registered twice, every lookup is as promised. */
  lemma {:induction false} LookupAsPromised(s: State, events: seq<Event>)
    requires Faithful(s) && Distinct(Run(s, events).registered)
    ensures Faithful(Run(s, events))
  {
    if events != [] {
      var before, e := Run(s, events[..|events| - 1]), events[|events| - 1];
      RegisteredGrows(before, e);
      assert forall i :: 0 <= i < |before.registered| ==> before.registered[i] == Step(before, e).registered[i];
      LookupAsPromised(s, events[..|events| - 1]);
      match e
      case Register(a) => RegisterFaithful(before, a);
      case Dispose(k) =>
        DistinctNeverRemovesAnother(before, k);
        DisposeFaithful(before, k);
    }
  }

  /** A disposer clears the chain whose latest registration is its own, and leaves every other lookup alone. */
  lemma DisposerOnlyOwn(s: State, k: nat, chain: string)
    requires Faithful(s) && Distinct(s.registered)
    ensures Lookup(Step(s, Dispose(k)), chain)
         == if Latest(s.registered, chain) == Some(k) then None else Lookup(s, chain)
  {
    DistinctNeverRemovesAnother(s, k);
    DisposeFaithful(s, k);
    assert Lookup(s, chain) == Promised(s, chain);
    assert Lookup(Step(s, Dispose(k)), chain) == Promised(Step(s, Dispose(k)), chain);
  }

  /** Once a disposer has run it never does anything again. */
  lemma {:induction false} DisposerRunsOnce(s: State, k: nat, events: seq<Event>)
    requires k in s.disposed
    ensures k in Run(s, events).disposed && Step(Run(s, events), Dispose(k)) == Run(s, events)
  {
    if events != [] {
      DisposerRunsOnce(s, k, events[..|events| - 1]);
    }
  }

  // ----- registerSolanaAdapters -----

  function Registrations(adapters: seq<WalletAdapter>): (events: seq<Event>)
    ensures |events| == |adapters|
  {
    seq(|adapters|, i requires 0 <= i < |adapters| => Register(adapters[i]))
  }

  function Disposals(first: nat, n: nat): (events: seq<Event>)
    ensures |events| == n
  {
    seq(n, i requires 0 <= i => Dispose(first + i))
  }

  lemma RegistrationsMore(s: State, adapters: seq<WalletAdapter>, a: WalletAdapter)
    ensures Run(s, Registrations(adapters + [a])) == Step(Run(s, Registrations(adapters)), Register(a))
  {
    var events := Registrations(adapters + [a]);
    assert events[..|adapters|] == Registrations(adapters) && events[|adapters|] == Register(a);
  }

  lemma DisposalsMore(s: State, first: nat, n: nat)
    ensures Run(s, Disposals(first, n + 1)) == Step(Run(s, Disposals(first, n)), Dispose(first + n))
  {
    assert Disposals(first, n + 1)[..n] == Disposals(first, n);
  }

  lemma {:induction false} RunConcat(s: State, a: seq<Event>, b: seq<Event>)
    ensures Run(s, a + b) == Run(Run(s, a), b)
  {
    if b == [] {
      assert a + b == a;
    } else {
      RunConcat(s, a, b[..|b| - 1]);
      assert (a + b)[..|a + b| - 1] == a + b[..|b| - 1];
    }
  }

  lemma {:induction false} RegistersAll(s: State, adapters: seq<WalletAdapter>)
    requires forall a :: a in adapters ==> Acceptable(a)
    ensures var after := Run(s, Registrations(adapters));
            after.registered == s.registered + adapters && after.disposed == s.disposed
  {
    var n := |adapters|;
    if n == 0 {
      assert s.registered + adapters == s.registered;
    } else {
      var front := adapters[..n - 1];
      RegistersAll(s, front);
      assert Registrations(adapters)[..n - 1] == Registrations(front);
      assert adapters == front + [adapters[n - 1]];
      assert adapters[n - 1] in adapters;
      assert s.registered + adapters == s.registered + front + [adapters[n - 1]];
    }
  }

  lemma {:induction false} DisposesAll(s: State, first: nat, n: nat)
    requires first + n <= |s.registered|
    ensures var after := Run(s, Disposals(first, n));
            && after.registered == s.registered
            && forall k :: k in after.disposed <==> k in s.disposed || first <= k < first + n
  {
    if n > 0 {
      DisposesAll(s, first, n - 1);
      assert Disposals(first, n)[..n - 1] == Disposals(first, n - 1);
    }
  }

  lemma {:induction false} LatestOfConcat(a: seq<WalletAdapter>, b: seq<WalletAdapter>, chain: string)
    ensures var k := Latest(a + b, chain);
            if exists x :: x in b && x.chain == chain then k.Some? && k.value >= |a| else k == Latest(a, chain)
  {
    if b == [] {
      assert a + b == a;
    } else {
      var front, last := b[..|b| - 1], b[|b| - 1];
      LatestOfConcat(a, front, chain);
      assert a + b == a + front + [last];
      LatestAfter(a + front, last, chain);
      assert b == front + [last];
      assert forall x :: x in b <==> x in front || x == last;
    }
  }

  /** The combined disposer, run right after its call, leaves those chains empty and every other as it was. */
  lemma RegisterThenDispose(s: State, adapters: seq<WalletAdapter>, chain: string)
    requires Faithful(s) && Distinct(s.registered + adapters)
    requires forall a :: a in adapters ==> Acceptable(a)
    ensures Lookup(Run(s, Registrations(adapters) + Disposals(|s.registered|, |adapters|)), chain)
         == if exists a :: a in adapters && a.chain == chain then None else Lookup(s, chain)
  {
    var events := Registrations(adapters) + Disposals(|s.registered|, |adapters|);
    var after := Run(s, events);
    RunConcat(s, Registrations(adapters), Disposals(|s.registered|, |adapters|));
    RegistersAll(s, adapters);
    DisposesAll(Run(s, Registrations(adapters)), |s.registered|, |adapters|);
    LookupAsPromised(s, events);
    LatestOfConcat(s.registered, adapters, chain);
    assert Lookup(s, chain) == Promised(s, chain);
    assert Lookup(after, chain) == Promised(after, chain);
  }

  // ----- The registry as objects -----

  class Registry {
    var entries: map<string, WalletAdapter>
    ghost var registered: seq<WalletAdapter>
    ghost var disposers: seq<Disposer>

    ghost predicate Valid()
      reads this
    {
      && |registered| == |disposers|
      && forall k :: 0 <= k < |disposers| ==>
           && disposers[k].registry == this
           && disposers[k].adapter == registered[k]
           && disposers[k].ticket == k
    }

    ghost function Model(): State
      reads this, disposers
    {
      State(registered, (set k: nat | k < |disposers| && disposers[k].disposed), entries)
    }

    constructor ()
      ensures Valid() && Model() == State([], {}, map[])
    {
      entries, registered, disposers := map[], [], [];
    }

    /** null stands for anything that is not an object; None is the TypeError. */
    method Register(adapter: WalletAdapter?) returns (r: Option<Disposer>)
      requires Valid()
      modifies this
      ensures Valid()
      ensures adapter == null || adapter.chain == "" || !adapter.implements ==>
                r == None && disposers == old(disposers) && Model() == old(Model())
      ensures adapter != null && adapter.chain != "" && adapter.implements ==>
                && r.Some? && fresh(r.value) && disposers == old(disposers) + [r.value]
                && Model() == Step(old(Model()), Event.Register(adapter))
    {
      if adapter == null { return None; }
      if adapter.chain == "" { return None; }
      if !adapter.implements { return None; }
      entries := entries[adapter.chain := adapter];
      var disposer := new Disposer(this, adapter, |disposers|);
      registered, disposers := registered + [adapter], disposers + [disposer];
      return Some(disposer);
    }

    method GetWalletAdapter(chain: string) returns (r: Option<WalletAdapter>)
      ensures r == Lookup(Model(), chain)
    {
      return if chain in entries then Some(entries[chain]) else None;
    }

    /** Validates every network before the first registration. */
    method RegisterSolana(networks: Option<seq<string>>)
      returns (r: Option<CombinedDisposer>, ghost adapters: seq<WalletAdapter>)
      requires Valid()
      modifies this
      ensures Valid()
      ensures var names := if networks.Some? then networks.value else ["mainnet-beta"];
              if exists n :: n in names && n !in ["mainnet-beta", "devnet", "testnet", "localnet"]
              then r == None && disposers == old(disposers) && Model() == old(Model())
              else
                && |adapters| == |names|
                && (forall i :: 0 <= i < |names| ==>
                      fresh(adapters[i]) && Acceptable(adapters[i]) && adapters[i].chain == "solana:" + names[i])
                && Model() == Run(old(Model()), Registrations(adapters))
                && r.Some? && fresh(r.value) && r.value.Valid() && !r.value.disposed && r.value.registry == this
                && r.value.first == |old(disposers)| && r.value.disposers == disposers[|old(disposers)|..]
      ensures Distinct(adapters)
    {
      var names := if networks.Some? then networks.value else ["mainnet-beta"];
      adapters := [];
      for k := 0 to |names|
        invariant forall i :: 0 <= i < k ==> IsSolanaNetwork(names[i])
      {
        if !IsSolanaNetwork(names[k]) { return None, []; }
      }
      var handed;
      handed, adapters := RegisterEach(names);
      assert handed == disposers[|old(disposers)|..];
      var combined := new CombinedDisposer(this, handed, |old(disposers)|);
      return Some(combined), adapters;
    }

    method RegisterEach(names: seq<string>) returns (handed: seq<Disposer>, ghost adapters: seq<WalletAdapter>)
      requires Valid() && forall n :: n in names ==> IsSolanaNetwork(n)
      modifies this
      ensures Valid() && disposers == old(disposers) + handed
      ensures |adapters| == |names| && Distinct(adapters)
      ensures forall i :: 0 <= i < |names| ==>
                fresh(adapters[i]) && Acceptable(adapters[i]) && adapters[i].chain == SolanaChain(names[i])
      ensures Model() == Run(old(Model()), Registrations(adapters))
    {
      handed, adapters := [], [];
      for k := 0 to |names|
        invariant Valid() && disposers == old(disposers) + handed
        invariant |adapters| == k && Distinct(adapters)
        invariant forall i :: 0 <= i < k ==>
                    fresh(adapters[i]) && Acceptable(adapters[i]) && adapters[i].chain == SolanaChain(names[i])
        invariant Model() == Run(old(Model()), Registrations(adapters))
      {
        var adapter, disposer := RegisterNetwork(names[k]);
        RegistrationsMore(old(Model()), adapters, adapter);
        handed, adapters := handed + [disposer], adapters + [adapter];
      }
    }

    method RegisterNetwork(network: string) returns (adapter: WalletAdapter, disposer: Disposer)
      requires Valid() && IsSolanaNetwork(network)
      modifies this
      ensures Valid() && disposers == old(disposers) + [disposer]
      ensures fresh(adapter) && Acceptable(adapter) && adapter.chain == SolanaChain(network)
      ensures Model() == Step(old(Model()), Event.Register(adapter))
    {
      adapter := new WalletAdapter.Solana(network);
      var r := Register(adapter);
      disposer := r.value;
    }
  }

  class Disposer {
    const registry: Registry
    const adapter: WalletAdapter
    var disposed: bool
    ghost const ticket: nat

    constructor (registry: Registry, adapter: WalletAdapter, ghost ticket: nat)
      ensures this.registry == registry && this.adapter == adapter && this.ticket == ticket && !disposed
    {
      this.registry, this.adapter, this.ticket, disposed := registry, adapter, ticket, false;
    }

    method Dispose()
      requires registry.Valid() && ticket < |registry.disposers| && registry.disposers[ticket] == this
      modifies this`disposed, registry`entries
      ensures registry.Valid()
      ensures registry.Model() == Step(old(registry.Model()), Event.Dispose(ticket))
    {
      if disposed { return; }
      disposed := true;
      if adapter.chain in registry.entries && registry.entries[adapter.chain] == adapter {
        registry.entries := registry.entries - {adapter.chain};
      }
    }
  }

  class CombinedDisposer {
    const registry: Registry
    const disposers: seq<Disposer>
    var disposed: bool
    ghost const first: nat

    ghost predicate Valid()
      reads registry
    {
      && registry.Valid()
      && first + |disposers| <= |registry.disposers|
      && forall k :: 0 <= k < |disposers| ==> disposers[k] == registry.disposers[first + k]
    }

    constructor (registry: Registry, disposers: seq<Disposer>, ghost first: nat)
      ensures this.registry == registry && this.disposers == disposers && this.first == first && !disposed
    {
      this.registry, this.disposers, this.first, disposed := registry, disposers, first, false;
    }

    method Dispose()
      requires Valid()
      modifies this`disposed, registry`entries, disposers
      ensures Valid() && disposed
      ensures registry.Model() == if old(disposed) then old(registry.Model())
                                  else Run(old(registry.Model()), Disposals(first, |disposers|))
    {
      if disposed { return; }
      disposed := true;
      DisposeEach();
    }

    method DisposeEach()
      requires Valid()
      modifies registry`entries, disposers
      ensures Valid()
      ensures registry.Model() == Run(old(registry.Model()), Disposals(first, |disposers|))
    {
      ghost var start, reached := registry.Model(), registry.Model();
      for k := 0 to |disposers|
        invariant Valid()
        invariant registry.Model() == reached == Run(start, Disposals(first, k))
      {
        DisposalsMore(start, first, k);
        reached := Step(reached, Event.Dispose(first + k));
        DisposeNth(k);
      }
    }

    method DisposeNth(k: nat)
      requires Valid() && k < |disposers|
      modifies registry`entries, disposers
      ensures Valid() && registry.Model() == Step(old(registry.Model()), Event.Dispose(first + k))
    {
      disposers[k].Dispose();
    }
  }
}
