/**
 The React provider's generation tickets: activations run concurrently, and
 only the newest one that nothing has invalidated may install its identity.
 An activation is a start and, some events later, one resolution.
 */
module IdentityProvider {
  import opened Basics
  import opened Primitives
  import opened Tokens
  import Entities
  import Keys

  // ----- The protocol on values -----

  datatype Outcome = Pending | Committed | Superseded | Failed

  /** Activations are numbered in start order; activation a that resolves creates identity a. */
  datatype State = State(
    gen: nat,
    tickets: seq<nat>,
    outcomes: seq<Outcome>,
    current: Option<nat>,   // the ref
    shown: Option<nat>,     // the React state
    unmounted: bool,
    disposed: set<nat>,
    commits: seq<nat>)

  datatype Event =
    | Start
    | Resolve(activation: nat, created: bool)   // fromSeed delivered an identity, or threw
    | Clear
    | Unmount

  const INITIAL := State(0, [], [], None, None, false, {}, [])

  /** What has been disposed once the current identity is, too. */
  function Gone(s: State): set<nat> {
    if s.current.Some? then s.disposed + {s.current.value} else s.disposed
  }

  function Release(s: State): State {
    s.(current := None, disposed := Gone(s))
  }

  function Step(s: State, e: Event): State {
    match e
    case Start => s.(gen := s.gen + 1, tickets := s.tickets + [s.gen + 1], outcomes := s.outcomes + [Pending])
    case Clear => Release(s.(gen := s.gen + 1)).(shown := None)
    case Unmount => Release(s.(gen := s.gen + 1)).(unmounted := true)
    case Resolve(a, created) =>
      if a >= |s.outcomes| || a >= |s.tickets| || s.outcomes[a] != Pending then s
      else if !created then s.(outcomes := s.outcomes[a := Failed])
      else if s.tickets[a] != s.gen then
        s.(outcomes := s.outcomes[a := Superseded], disposed := s.disposed + {a})
      else
        Release(s).(outcomes := s.outcomes[a := Committed], current := Some(a), shown := Some(a),
                    commits := s.commits + [a])
  }

  function Run(s: State, events: seq<Event>): State {
    if events == [] then s else Step(Run(s, events[..|events| - 1]), events[|events| - 1])
  }

  /** An identity object came into being for activation a. */
  predicate Created(s: State, a: nat) {
    a < |s.outcomes| && (s.outcomes[a] == Committed || s.outcomes[a] == Superseded)
  }

  ghost predicate Sound(s: State) {
    // every identity ever created is disposed, except the one currently held
    && (forall a: nat :: a in s.disposed <==> Created(s, a) && s.current != Some(a))
    && (s.current.Some? ==> Created(s, s.current.value))
    && (s.shown.Some? ==> Created(s, s.shown.value))
    // commits happen in start order, and an activation returns true exactly when it committed
    && Increasing(s.commits)
    && (forall a: nat :: a in s.commits <==> a < |s.outcomes| && s.outcomes[a] == Committed)
    && (s.current.Some? ==> s.commits != [] && s.current.value == s.commits[|s.commits| - 1])
  }

  /** Until the unmount, what the state shows is what the ref holds, so it is never a disposed identity. */
  ghost predicate ShowsCurrent(s: State) {
    !s.unmounted ==> s.shown == s.current && (s.shown.Some? ==> s.shown.value !in s.disposed)
  }

  ghost predicate Ticketed(s: State) {
    && |s.tickets| == |s.outcomes|
    && Increasing(s.tickets)
    && forall a :: 0 <= a < |s.tickets| ==> s.tickets[a] <= s.gen
  }

  lemma StepTicketed(s: State, e: Event)
    requires Ticketed(s)
    ensures Ticketed(Step(s, e)) && s.tickets <= Step(s, e).tickets && s.gen <= Step(s, e).gen
  {
  }

  /** Only the newest activation can hold the current ticket. */
  lemma CurrentTicketIsNewest(s: State, a: nat)
    requires Ticketed(s) && a < |s.tickets| && s.tickets[a] == s.gen
    ensures a == |s.tickets| - 1
  {
    assert s.tickets[|s.tickets| - 1] <= s.gen;
  }

  lemma CommitSound(s: State, a: nat)
    requires Ticketed(s) && Sound(s) && a < |s.tickets| && s.outcomes[a] == Pending && s.tickets[a] == s.gen
    ensures Sound(Step(s, Resolve(a, true)))
  {
    CurrentTicketIsNewest(s, a);
    var after := Step(s, Resolve(a, true));
    forall i | 0 <= i < |s.commits|
      ensures s.commits[i] < a
    {
      assert s.commits[i] in s.commits;
    }
    assert forall b :: b in after.commits <==> b in s.commits || b == a;
  }

  lemma StepSound(s: State, e: Event)
    requires Ticketed(s) && Sound(s)
    ensures Sound(Step(s, e))
  {
    match e
    case Start =>
    case Clear =>
    case Unmount =>
    case Resolve(a, created) =>
      if created && a < |s.tickets| && s.outcomes[a] == Pending && s.tickets[a] == s.gen {
        CommitSound(s, a);
      }
  }

  /** Over every interleaving. */
  lemma {:induction false} RunSound(s: State, events: seq<Event>)
    requires Ticketed(s) && Sound(s) && ShowsCurrent(s)
    ensures Ticketed(Run(s, events)) && Sound(Run(s, events)) && ShowsCurrent(Run(s, events))
  {
    if events != [] {
      var before := Run(s, events[..|events| - 1]);
      RunSound(s, events[..|events| - 1]);
      StepTicketed(before, events[|events| - 1]);
      StepSound(before, events[|events| - 1]);
    }
  }

  /** No identity leaks: each one created is disposed, except possibly the one held; commits follow start order. */
  lemma EveryInterleaving(events: seq<Event>)
    ensures Sound(Run(INITIAL, events)) && ShowsCurrent(Run(INITIAL, events))
  {
    RunSound(INITIAL, events);
  }

  /** Starts, clears and the unmount invalidate whatever is in flight. */
  predicate Invalidates(e: Event) {
    !e.Resolve?
  }

  predicate Undisturbed(events: seq<Event>) {
    forall i :: 0 <= i < |events| ==> !Invalidates(events[i])
  }

  /** None of the first n activations can commit any more. */
  ghost predicate Stale(s: State, n: nat) {
    n <= |s.tickets| && forall a :: 0 <= a < n ==> s.tickets[a] < s.gen
  }

  lemma {:induction false} StaleForEver(s: State, n: nat, events: seq<Event>)
    requires Ticketed(s) && Stale(s, n)
    ensures var after := Run(s, events);
            && Ticketed(after) && Stale(after, n)
            && s.commits <= after.commits
            && forall i :: |s.commits| <= i < |after.commits| ==> after.commits[i] >= n
  {
    if events != [] {
      var before := Run(s, events[..|events| - 1]);
      StaleForEver(s, n, events[..|events| - 1]);
      StepTicketed(before, events[|events| - 1]);
    }
  }

  /** What was in flight at a start, a clear or the unmount never commits afterwards. */
  lemma InFlightNeverCommits(s: State, e: Event, events: seq<Event>)
    requires Ticketed(s) && Sound(s) && Invalidates(e)
    ensures var after := Run(Step(s, e), events);
            forall a :: 0 <= a < |s.tickets| && s.outcomes[a] != Committed ==> a !in after.commits
  {
    StepTicketed(s, e);
    StaleForEver(Step(s, e), |s.tickets|, events);
    var after := Run(Step(s, e), events);
    forall a | 0 <= a < |s.tickets| && a in after.commits
      ensures s.outcomes[a] == Committed
    {
      var i :| 0 <= i < |after.commits| && after.commits[i] == a;
      assert i < |s.commits| && s.commits[i] == a;
      assert a in s.commits;
    }
  }

  /** Nothing started before a clear or the unmount is ever current after it. */
  lemma NothingSurvivesAClear(s: State, e: Event, events: seq<Event>)
    requires Ticketed(s) && Sound(s) && (e == Clear || e == Unmount)
    ensures var current := Run(Step(s, e), events).current;
            current.Some? ==> current.value >= |s.tickets|
  {
    StepTicketed(s, e);
    FreshCurrent(Step(s, e), |s.tickets|, events);
  }

  lemma {:induction false} FreshCurrent(s: State, n: nat, events: seq<Event>)
    requires Ticketed(s) && Stale(s, n) && (s.current.Some? ==> s.current.value >= n)
    ensures var current := Run(s, events).current; current.Some? ==> current.value >= n
  {
    if events != [] {
      FreshCurrent(s, n, events[..|events| - 1]);
      StaleForEver(s, n, events[..|events| - 1]);
    }
  }

  lemma {:induction false} GenAfter(s: State, events: seq<Event>)
    requires Ticketed(s)
    ensures var after := Run(s, events);
            && Ticketed(after) && s.tickets <= after.tickets && after.gen >= s.gen
            && (after.gen == s.gen <==> Undisturbed(events))
  {
    if events != [] {
      var front, last := events[..|events| - 1], events[|events| - 1];
      GenAfter(s, front);
      StepTicketed(Run(s, front), last);
      assert Undisturbed(events) <==> Undisturbed(front) && !Invalidates(last);
    }
  }

  lemma {:induction false} StaysPending(s: State, a: nat, events: seq<Event>)
    requires Ticketed(s) && a < |s.outcomes| && s.outcomes[a] == Pending
    requires forall e :: e in events && e.Resolve? ==> e.activation != a
    ensures var after := Run(s, events); a < |after.outcomes| && after.outcomes[a] == Pending
  {
    if events != [] {
      var front, last := events[..|events| - 1], events[|events| - 1];
      assert last in events && forall e :: e in front ==> e in events;
      StaysPending(s, a, front);
    }
  }

  /** An activation that delivers an identity commits exactly when nothing was started, cleared or unmounted since. */
  lemma CommitsExactlyIfUndisturbed(s: State, between: seq<Event>)
    requires Ticketed(s)
    requires forall e :: e in between && e.Resolve? ==> e.activation != |s.outcomes|
    ensures var a := |s.outcomes|;
            var after := Step(Run(Step(s, Start), between), Resolve(a, true));
            && a < |after.outcomes|
            && after.outcomes[a] == (if Undisturbed(between) then Committed else Superseded)
            && (Undisturbed(between) ==> after.current == Some(a) && after.shown == Some(a))
  {
    var a, started := |s.outcomes|, Step(s, Start);
    StepTicketed(s, Start);
    GenAfter(started, between);
    StaysPending(started, a, between);
    assert Run(started, between).tickets[a] == started.tickets[a] == started.gen;
  }

  /** What is held and shown changes only by a commit, a clear or the unmount, which shows on what it showed. */
  lemma OnlyCommitsAndClearsReplace(s: State, e: Event)
    ensures var after := Step(s, e);
            && (after.commits == s.commits && e != Clear && e != Unmount ==> after.current == s.current)
            && (after.commits == s.commits && e != Clear ==> after.shown == s.shown)
            && (e == Clear ==> after.current == None && after.shown == None)
            && (e == Unmount ==> after.current == None)
  {
  }

  // ----- The provider -----

  /** Disposed, so the key buffer it was made with holds zeros. */
  ghost predicate Wiped(env: Env, id: Entities.Identity?)
    reads id, if id == null then {} else {id.buffer}
  {
    id != null ==> id.Valid(env) && id.disposed
  }

  /** created lists the identity objects by activation; exactly those in gone have been disposed. */
  ghost predicate Tracks(created: map<nat, Entities.Identity>, gone: set<nat>)
    reads created.Values
  {
    && (forall a :: a in created ==> (created[a].disposed <==> a in gone))
    && (forall a, b :: a in created && b in created && a != b ==> created[a] != created[b])
  }

  ghost predicate Reachable(s: State) {
    exists events: seq<Event> :: s == Run(INITIAL, events)
  }

  lemma ReachableStep(s: State, e: Event)
    requires Reachable(s)
    ensures Reachable(Step(s, e))
  {
    var events :| s == Run(INITIAL, events);
    assert (events + [e])[..|events|] == events;
    assert Step(s, e) == Run(INITIAL, events + [e]);
  }

  lemma ReachableSound(s: State)
    requires Reachable(s)
    ensures Ticketed(s) && Sound(s) && ShowsCurrent(s)
  {
    var events :| s == Run(INITIAL, events);
    RunSound(INITIAL, events);
  }

  lemma ResolveFacts(s: State, a: nat, created: bool)
    requires Reachable(s) && a < |s.outcomes| && a < |s.tickets| && s.outcomes[a] == Pending
    ensures a !in Gone(s) && (s.shown.Some? ==> s.shown.value in Gone(s))
    ensures var next := Step(s, Resolve(a, created));
            && Reachable(next) && next.gen == s.gen
            && (created && s.tickets[a] == s.gen ==>
                  next.outcomes[a] == Committed && next.current == Some(a) && next.shown == Some(a)
                  && next.disposed == Gone(s))
            && (created && s.tickets[a] != s.gen ==>
                  next.outcomes[a] == Superseded && next.current == s.current && next.shown == s.shown
                  && next.disposed == s.disposed + {a})
            && (!created ==> next == s.(outcomes := s.outcomes[a := Failed]))
  {
    ReachableSound(s);
    ReachableStep(s, Resolve(a, created));
  }

  lemma ClearFacts(s: State, e: Event)
    requires Reachable(s) && (e == Clear || e == Unmount)
    ensures s.shown.Some? ==> s.shown.value in Gone(s)
    ensures var next := Step(s, e);
            && Reachable(next) && next.gen == s.gen + 1 && next.current == None && next.disposed == Gone(s)
            && next.shown == if e == Clear then None else s.shown
  {
    ReachableSound(s);
    ReachableStep(s, e);
  }

  predicate OnlyOthers(events: seq<Event>) {
    forall k :: 0 <= k < |events| ==> Invalidates(events[k])
  }

  /** An activation that starts, awaits its identity during other calls, and then resolves. */
  lemma AwaitedFacts(s: State, others: seq<Event>)
    requires Reachable(s) && OnlyOthers(others)
    ensures var started, a := Step(s, Start), |s.outcomes|;
            var awaited := Run(started, others);
            && a == |s.tickets| && a < |awaited.outcomes| && a < |awaited.tickets|
            && awaited.tickets[a] == started.tickets[a] && awaited.outcomes[a] == Pending
            && Step(awaited, Resolve(a, true)).outcomes[a] == (if others == [] then Committed else Superseded)
            && Step(awaited, Resolve(a, false)).outcomes[a] == Failed
  {
    ReachableSound(s);
    var started := Step(s, Start);
    StepTicketed(s, Start);
    GenAfter(started, others);
    StaysPending(started, |s.outcomes|, others);
    CommitsExactlyIfUndisturbed(s, others);
    assert Undisturbed(others) <==> others == [];
  }

  class Provider {
    var genRef: nat
    var identityRef: Entities.Identity?
    var identity: Entities.Identity?
    ghost var model: State
    ghost var created: map<nat, Entities.Identity>

    /** The ref is the model's, and the objects are as it says. */
    ghost predicate Held(env: Env)
      reads `identityRef, `model, `created, created.Values, if identityRef == null then {} else {identityRef.buffer}
    {
      && created.Keys == Gone(model)
      && Tracks(created, model.disposed)
      && identityRef == Object(model.current)
      && (identityRef != null ==> identityRef in created.Values && identityRef.Valid(env))
    }

    ghost predicate Valid(env: Env)
      reads this, created.Values, if identityRef == null then {} else {identityRef.buffer}
    {
      Reachable(model) && genRef == model.gen && Held(env) && identity == Object(model.shown)
    }

    ghost function Object(a: Option<nat>): Entities.Identity?
      reads `created
    {
      if a.Some? && a.value in created then created[a.value] else null
    }

    constructor (env: Env)
      ensures Valid(env) && model == INITIAL && created == map[]
    {
      genRef, identityRef, identity, model, created := 0, null, null, INITIAL, map[];
      assert INITIAL == Run(INITIAL, []);
    }

    /** activateIdentity up to its await. */
    method StartActivation(ghost env: Env) returns (gen: nat)
      requires Valid(env)
      modifies this`genRef, this`model
      ensures Valid(env) && model == Step(old(model), Start) && gen == model.tickets[|old(model).tickets|]
    {
      genRef := genRef + 1;
      ReachableSound(model);
      ReachableStep(model, Start);
      model := Step(model, Start);
      return genRef;
    }

    /** activateIdentity after its await: id is what fromSeed delivered, null when it threw. */
    method FinishActivation(gen: nat, id: Entities.Identity?, ghost a: nat, ghost env: Env) returns (committed: bool)
      requires Valid(env)
      requires a < |model.outcomes| && a < |model.tickets| && model.tickets[a] == gen && model.outcomes[a] == Pending
      requires id != null ==> id.Valid(env) && !id.disposed && id !in created.Values
      requires id != null && identityRef != null ==> id.buffer != identityRef.buffer
      modifies this, Owned(identityRef), Owned(id)
      ensures Valid(env) && model == Step(old(model), Resolve(a, id != null))
      ensures committed <==> model.outcomes[a] == Committed
      ensures created == if id == null then old(created) else old(created)[a := id]
      ensures if committed then identityRef == identity == id && !id.disposed && Wiped(env, old(identityRef))
              else identityRef == old(identityRef) && identity == old(identity) && Wiped(env, id)
    {
      ghost var next := Step(model, Resolve(a, id != null));
      ResolveFacts(model, a, id != null);
      if id == null {
        model := next;
        return false;
      }
      if gen != genRef {
        Discard(id, a, next, env);
        return false;
      }
      DisposeCurrent(env);
      Install(id, a, next, env);
      return true;
    }

    /** Other calls, while an activation waits. */
    method OtherCalls(others: seq<Event>, ghost env: Env)
      requires Valid(env) && OnlyOthers(others)
      modifies this`genRef, this`identityRef, this`identity, this`model, Owned(identityRef)
      ensures Valid(env) && model == Run(old(model), others)
      ensures identityRef == null || identityRef == old(identityRef)
      ensures others == [] ==> identityRef == old(identityRef)
      ensures identityRef != null ==>
                identityRef.privateKey == old(if identityRef == null then null else identityRef.privateKey)
    {
      for k := 0 to |others|
        invariant Valid(env) && model == Run(old(model), others[..k])
        invariant identityRef == null || identityRef == old(identityRef)
        invariant k == 0 ==> identityRef == old(identityRef)
        invariant identityRef != null ==>
                    identityRef.privateKey == old(if identityRef == null then null else identityRef.privateKey)
      {
        assert others[..k + 1][..k] == others[..k];
        match others[k]
        case Start => var _ := StartActivation(env);
        case Clear => ClearIdentity(env);
        case Unmount => Unmount(env);
      }
      assert others[..|others|] == others;
    }

    /**
     activateIdentity as a whole: fromSeed runs before the await gives way to the
     other calls, which may start further activations, clear or unmount.
     */
    method ActivateIdentity(seed: array<Byte>, others: seq<Event>, env: Env) returns (committed: bool)
      requires Valid(env) && OnlyOthers(others)
      modifies this, Owned(identityRef)
      ensures Valid(env)
      ensures model == Step(Run(Step(old(model), Start), others), Resolve(|old(model).outcomes|, seed.Length == 64))
      ensures committed <==> seed.Length == 64 && others == []
      ensures committed ==>
                identityRef != null && fresh(identityRef) && identity == identityRef && !identityRef.disposed
                    && identityRef.secret == Keys.DeriveRootKey(old(seed[..])) && Wiped(env, old(identityRef))
    {
      ghost var before, a := model, |model.outcomes|;
      AwaitedFacts(before, others);
      var gen := StartActivation(env);
      var id := AwaitIdentity(seed, others, env);
      committed := FinishActivation(gen, id, a, env);
    }

    /** The awaited call, and what happens until its result is taken up. */
    method AwaitIdentity(seed: array<Byte>, others: seq<Event>, env: Env) returns (id: Entities.Identity?)
      requires Valid(env) && OnlyOthers(others)
      modifies this`genRef, this`identityRef, this`identity, this`model, Owned(identityRef)
      ensures Valid(env) && model == Run(old(model), others)
      ensures identityRef == null || identityRef == old(identityRef)
      ensures others == [] ==> identityRef == old(identityRef)
      ensures identityRef != null ==>
                identityRef.privateKey == old(if identityRef == null then null else identityRef.privateKey)
      ensures id == null <==> seed.Length != 64
      ensures id != null ==> fresh(id) && fresh(id.buffer) && fresh(id.privateKey) && id.Valid(env) && !id.disposed
                             && id !in created.Values && id.secret == Keys.DeriveRootKey(old(seed[..]))
      ensures id != null && identityRef != null ==> id.buffer != identityRef.buffer
    {
      var made := Entities.Identity.FromSeed(env, seed);
      id := if made.Ok? then made.value else null;
      OtherCalls(others, env);
    }

    method Discard(id: Entities.Identity, ghost a: nat, ghost next: State, ghost env: Env)
      requires Held(env) && id.Valid(env) && !id.disposed && id !in created.Values && a !in created
      requires identityRef != null ==> id.buffer != identityRef.buffer
      requires next.current == model.current && next.disposed == model.disposed + {a}
      modifies this`created, this`model, Owned(id)
      ensures Held(env) && model == next && created == old(created)[a := id] && Wiped(env, id)
    {
      id.Dispose(env);
      created, model := created[a := id], next;
    }

    method Install(id: Entities.Identity, ghost a: nat, ghost next: State, ghost env: Env)
      requires created.Keys == Gone(model) && Tracks(created, Gone(model))
      requires id.Valid(env) && !id.disposed && id !in created.Values && a !in created
      requires next.current == Some(a) && next.disposed == Gone(model)
      modifies this`identityRef, this`identity, this`created, this`model
      ensures Held(env) && model == next && created == old(created)[a := id]
      ensures identityRef == identity == id
    {
      identityRef := id;
      identity := id;
      created, model := created[a := id], next;
    }

    method ClearIdentity(ghost env: Env)
      requires Valid(env)
      modifies this`genRef, this`identityRef, this`identity, this`model, Owned(identityRef)
      ensures Valid(env) && model == Step(old(model), Clear)
      ensures identityRef == null && identity == null && Wiped(env, old(identityRef))
    {
      ClearFacts(model, Clear);
      Teardown(Step(model, Clear), env);
      identity := null;
    }

    method Unmount(ghost env: Env)
      requires Valid(env)
      modifies this`genRef, this`identityRef, this`model, Owned(identityRef)
      ensures Valid(env) && model == Step(old(model), Event.Unmount)
      ensures identityRef == null && Wiped(env, old(identityRef))
    {
      ClearFacts(model, Event.Unmount);
      Teardown(Step(model, Event.Unmount), env);
    }

    /** What clearing and unmounting share: a new ticket, and the held identity disposed and dropped. */
    method Teardown(ghost next: State, ghost env: Env)
      requires Held(env) && genRef + 1 == next.gen && next.current == None && next.disposed == Gone(model)
      modifies this`genRef, this`identityRef, this`model, Owned(identityRef)
      ensures Held(env) && model == next && genRef == next.gen
      ensures Wiped(env, old(identityRef))
    {
      genRef := genRef + 1;
      DisposeCurrent(env);
      model := next;
    }

    /** identityRef.current?.dispose(); identityRef.current = null */
    method DisposeCurrent(ghost env: Env)
      requires Held(env)
      modifies this`identityRef, Owned(identityRef)
      ensures identityRef == null && Tracks(created, Gone(model))
      ensures Wiped(env, old(identityRef))
    {
      if identityRef != null {
        identityRef.Dispose(env);
      }
      identityRef := null;
    }
  }

  /** What disposing an identity writes. */
  ghost function Owned(id: Entities.Identity?): set<object>
    reads id
  {
    if id == null then {} else {id as object, id.privateKey}
  }
}
