/**
 * Reservations over every interleaving of Cosmos inserts, replacements and recheck removals with
 * the EVM subpools' holds and releases (mempool/recheck_pool.go). Each event is one critical
 * section: a call on the tracker, or a change of the pool under the pool's lock. Replacing and
 * removing take two, so other subpools may act in between.
 */
module ReservationProtocol {
  import opened Common
  import opened Reserver

  /** cosmosReserverHandlerID; the EVM subpools use 0, 1, ... */
  const COSMOS: int := -1

  /** The priority-nonce pool tells txs apart by first signer and nonce. */
  type Key = (string, nat)

  /**
   * What matters of a tx here: its key, if the pool can take it, and its signers' addresses, of which
   * two may coincide.
   */
  datatype Tx = Tx(key: Option<Key>, signers: seq<Address>)

  /** Replacing: the old tx of the call's key was released and is about to be overwritten.
      Removing: the tx has left the pool and is about to be released. */
  datatype Phase = Idle | Replacing(call: nat) | Removing(tx: Tx)

  /** `inflight` are the Insert calls between reservation and their end; `swallowed` counts logged Release errors. */
  datatype State = State(books: Books, pool: map<Key, Tx>, inflight: map<nat, Tx>, phase: Phase, swallowed: nat)

  datatype Event =
    | EvmHold(id: int, addrs: seq<Address>)
    | EvmRelease(id: int, addrs: seq<Address>)
    | Reserve(call: nat, tx: Tx)
    | RollBack(call: nat)
    | Commit(call: nat)
    | BeginReplace(call: nat)
    | FinishReplace
    | BeginRemove(key: Key)
    | FinishRemove

  /** A Cosmos release whose error would only be logged. */
  function CosmosRelease(s: State, addrs: seq<Address>): State {
    match Released(s.books, COSMOS, true, addrs)
    case Some(b) => s.(books := b)
    case None => s.(swallowed := s.swallowed + 1)
  }

  /** What may happen in s. An EVM subpool releases no address twice in one call, as Release demands. */
  ghost predicate Enabled(s: State, e: Event) {
    match e
    case EvmHold(id, addrs) => id != COSMOS
    case EvmRelease(id, addrs) => id != COSMOS && NoDuplicates(addrs)
    case Reserve(call, tx) => call !in s.inflight
    case RollBack(call) => call in s.inflight && s.phase != Replacing(call)
    case Commit(call) =>
      s.phase == Idle && call in s.inflight && s.inflight[call].key.Some? && s.inflight[call].key.value !in s.pool
    case BeginReplace(call) =>
      s.phase == Idle && call in s.inflight && s.inflight[call].key.Some? && s.inflight[call].key.value in s.pool
    case FinishReplace => s.phase.Replacing? && s.phase.call in s.inflight && s.inflight[s.phase.call].key.Some?
    case BeginRemove(key) => s.phase == Idle && key in s.pool
    case FinishRemove => s.phase.Removing?
  }

  ghost function Apply(s: State, e: Event): (r: State)
    requires Enabled(s, e)
  {
    match e
    case EvmHold(id, addrs) =>
      var b := Held(s.books, id, false, addrs);
      if b.Some? then s.(books := b.value) else s
    case EvmRelease(id, addrs) =>
      var b := Released(s.books, id, false, addrs);
      if b.Some? then s.(books := b.value) else s
    case Reserve(call, tx) =>
      var b := Held(s.books, COSMOS, true, tx.signers);
      if b.Some? then s.(books := b.value, inflight := s.inflight[call := tx]) else s
    case RollBack(call) =>
      CosmosRelease(s, s.inflight[call].signers).(inflight := s.inflight - {call})
    case Commit(call) =>
      s.(pool := s.pool[s.inflight[call].key.value := s.inflight[call]], inflight := s.inflight - {call})
    case BeginReplace(call) =>
      CosmosRelease(s, s.pool[s.inflight[call].key.value].signers).(phase := Replacing(call))
    case FinishReplace =>
      var tx := s.inflight[s.phase.call];
      s.(pool := s.pool[tx.key.value := tx], inflight := s.inflight - {s.phase.call}, phase := Idle)
    case BeginRemove(key) =>
      s.(pool := s.pool - {key}, phase := Removing(s.pool[key]))
    case FinishRemove =>
      CosmosRelease(s, s.phase.tx.signers).(phase := Idle)
  }

  // --- The invariant ---

  /** The addresses that the txs of m hold, list by list. */
  function Holdings<K>(m: map<K, Tx>): map<K, seq<Address>> {
    map k | k in m :: m[k].signers
  }

  /** The pooled txs that hold their reservations: all but one whose replacement has begun. */
  ghost function Live(s: State): map<Key, Tx> {
    if s.phase.Replacing? && s.phase.call in s.inflight && s.inflight[s.phase.call].key.Some?
    then s.pool - {s.inflight[s.phase.call].key.value} else s.pool
  }

  /** How often address a is held: by pooled txs, by inserts in flight, and by a tx just removed. */
  ghost function Holders(s: State, a: Address): nat {
    var removing := if s.phase.Removing? then multiset(s.phase.tx.signers)[a] else 0;
    Count(Holdings(Live(s)), a) + Count(Holdings(s.inflight), a) + removing
  }

  ghost predicate WellFormed(s: State) {
    && (forall k | k in s.pool :: s.pool[k].key == Some(k))
    && (s.phase.Replacing? ==>
          && s.phase.call in s.inflight && s.inflight[s.phase.call].key.Some?
          && s.inflight[s.phase.call].key.value in s.pool)
  }

  /** Counts are exact, gauges are exact, and no Release error was ever swallowed. */
  ghost predicate Inv(s: State) {
    && WellFormed(s)
    && GaugesExact(s.books) && RefsExact(s.books, COSMOS)
    && (forall a :: Refs(s.books, a) == Holders(s, a))
    && s.swallowed == 0
  }

  lemma HeldAdded<K(!new)>(m: map<K, Tx>, k: K, tx: Tx, a: Address)
    requires k !in m
    ensures Count(Holdings(m[k := tx]), a) == Count(Holdings(m), a) + multiset(tx.signers)[a]
  {
    assert Holdings(m[k := tx]) == Holdings(m)[k := tx.signers];
    CountWith(Holdings(m), k, tx.signers, a);
  }

  lemma HeldRemoved<K(!new)>(m: map<K, Tx>, k: K, a: Address)
    requires k in m
    ensures Count(Holdings(m), a) == Count(Holdings(m - {k}), a) + multiset(m[k].signers)[a]
  {
    assert Holdings(m - {k}) == Holdings(m) - {k};
    CountWithout(Holdings(m), k, a);
  }

  /** A release by the Cosmos pool of addresses that are held works, and lowers each count by one per mention. */
  lemma CosmosReleaseWorks(s: State, addrs: seq<Address>)
    requires Inv(s) && forall a :: multiset(addrs)[a] <= Holders(s, a)
    ensures var r := CosmosRelease(s, addrs);
            && r == s.(books := r.books) && GaugesExact(r.books) && RefsExact(r.books, COSMOS)
            && forall a :: Refs(r.books, a) == Holders(s, a) - multiset(addrs)[a]
  {
    hide Holders;
    forall a | a in addrs ensures CanRelease(s.books, COSMOS, a) && multiset(addrs)[a] <= Refs(s.books, a) {
      assert Refs(s.books, a) == Holders(s, a);
      assert multiset(addrs)[a] > 0;
      assert a in s.books.refs;
    }
    ReleasableIsReleased(s.books, COSMOS, COSMOS, addrs);
    ReleaseAllKeeps(s.books, COSMOS, COSMOS, addrs);
    var r := CosmosRelease(s, addrs);
    forall a ensures Refs(r.books, a) == Holders(s, a) - multiset(addrs)[a] {
      assert Refs(s.books, a) == Holders(s, a);
    }
  }

  lemma EvmHoldKeeps(s: State, e: Event)
    requires Inv(s) && Enabled(s, e) && e.EvmHold?
    ensures Inv(Apply(s, e))
  {
    hide HoldAll, Count;
    var r := Apply(s, e);
    if Held(s.books, e.id, false, e.addrs).Some? { HoldAllKeeps(s.books, e.id, COSMOS, e.addrs); }
    forall a ensures Refs(r.books, a) == Holders(r, a) {
      assert Refs(s.books, a) == Holders(s, a);
      assert Live(r) == Live(s);
    }
  }

  lemma EvmReleaseKeeps(s: State, e: Event)
    requires Inv(s) && Enabled(s, e) && e.EvmRelease?
    ensures Inv(Apply(s, e))
  {
    hide ReleaseAll, Count;
    var r := Apply(s, e);
    if Released(s.books, e.id, false, e.addrs).Some? {
      forall a | a in e.addrs ensures CanRelease(s.books, e.id, a) && multiset(e.addrs)[a] <= 1 {
        var i :| 0 <= i < |e.addrs| && e.addrs[i] == a;
        NamedOnce(e.addrs, a);
      }
      ReleaseAllKeeps(s.books, e.id, COSMOS, e.addrs);
    }
    forall a ensures Refs(r.books, a) == Holders(r, a) {
      assert Refs(s.books, a) == Holders(s, a);
      assert Live(r) == Live(s);
    }
  }

  lemma ReserveKeeps(s: State, e: Event)
    requires Inv(s) && Enabled(s, e) && e.Reserve?
    ensures Inv(Apply(s, e))
  {
    hide HoldAll, Count, Holdings;
    var r := Apply(s, e);
    if Held(s.books, COSMOS, true, e.tx.signers).Some? {
      HoldAllKeeps(s.books, COSMOS, COSMOS, e.tx.signers);
      forall a ensures Refs(r.books, a) == Holders(r, a) {
        assert Refs(s.books, a) == Holders(s, a);
        HeldAdded(s.inflight, e.call, e.tx, a);
        assert Live(r) == Live(s);
      }
    }
  }

  lemma RollBackKeeps(s: State, e: Event)
    requires Inv(s) && Enabled(s, e) && e.RollBack?
    ensures Inv(Apply(s, e))
  {
    hide Released, Count, Holdings;
    var r, addrs := Apply(s, e), s.inflight[e.call].signers;
    forall a ensures multiset(addrs)[a] <= Holders(s, a) { HeldRemoved(s.inflight, e.call, a); }
    CosmosReleaseWorks(s, addrs);
    assert Live(r) == Live(s);
    forall a ensures Refs(r.books, a) == Holders(r, a) { HeldRemoved(s.inflight, e.call, a); }
  }

  lemma CommitKeeps(s: State, e: Event)
    requires Inv(s) && Enabled(s, e) && e.Commit?
    ensures Inv(Apply(s, e))
  {
    hide Count, Holdings;
    var r, tx := Apply(s, e), s.inflight[e.call];
    forall a ensures Refs(r.books, a) == Holders(r, a) {
      assert Refs(s.books, a) == Holders(s, a);
      HeldRemoved(s.inflight, e.call, a);
      HeldAdded(s.pool, tx.key.value, tx, a);
    }
  }

  lemma BeginReplaceKeeps(s: State, e: Event)
    requires Inv(s) && Enabled(s, e) && e.BeginReplace?
    ensures Inv(Apply(s, e))
  {
    hide Released, Count, Holdings;
    var r, key := Apply(s, e), s.inflight[e.call].key.value;
    var addrs := s.pool[key].signers;
    forall a ensures multiset(addrs)[a] <= Holders(s, a) { HeldRemoved(s.pool, key, a); }
    CosmosReleaseWorks(s, addrs);
    forall a ensures Refs(r.books, a) == Holders(r, a) { HeldRemoved(s.pool, key, a); }
  }

  lemma FinishReplaceKeeps(s: State, e: Event)
    requires Inv(s) && Enabled(s, e) && e.FinishReplace?
    ensures Inv(Apply(s, e))
  {
    hide Count, Holdings;
    var r, tx := Apply(s, e), s.inflight[s.phase.call];
    var key := tx.key.value;
    assert r.pool == (s.pool - {key})[key := tx];
    forall a ensures Refs(r.books, a) == Holders(r, a) {
      assert Refs(s.books, a) == Holders(s, a);
      HeldRemoved(s.inflight, s.phase.call, a);
      HeldAdded(s.pool - {key}, key, tx, a);
    }
  }

  lemma BeginRemoveKeeps(s: State, e: Event)
    requires Inv(s) && Enabled(s, e) && e.BeginRemove?
    ensures Inv(Apply(s, e))
  {
    hide Count, Holdings;
    var r := Apply(s, e);
    forall a ensures Refs(r.books, a) == Holders(r, a) {
      assert Refs(s.books, a) == Holders(s, a);
      HeldRemoved(s.pool, e.key, a);
    }
  }

  lemma FinishRemoveKeeps(s: State, e: Event)
    requires Inv(s) && Enabled(s, e) && e.FinishRemove?
    ensures Inv(Apply(s, e))
  {
    hide Released, Count, Holdings;
    CosmosReleaseWorks(s, s.phase.tx.signers);
  }

  /** Every event keeps the invariant. */
  lemma StepKeepsInv(s: State, e: Event)
    requires Inv(s) && Enabled(s, e)
    ensures Inv(Apply(s, e))
  {
    match e
    case EvmHold(_, _) => EvmHoldKeeps(s, e);
    case EvmRelease(_, _) => EvmReleaseKeeps(s, e);
    case Reserve(_, _) => ReserveKeeps(s, e);
    case RollBack(_) => RollBackKeeps(s, e);
    case Commit(_) => CommitKeeps(s, e);
    case BeginReplace(_) => BeginReplaceKeeps(s, e);
    case FinishReplace => FinishReplaceKeeps(s, e);
    case BeginRemove(_) => BeginRemoveKeeps(s, e);
    case FinishRemove => FinishRemoveKeeps(s, e);
  }

  const INITIAL: State := State(Books(map[], map[], map[]), map[], map[], Idle, 0)

  /** The state after the events, if each of them could happen where it did. */
  ghost function Run(es: seq<Event>): (r: Option<State>) {
    if es == [] then Some(INITIAL)
    else
      var before := Run(es[..|es| - 1]);
      if before.Some? && Enabled(before.value, es[|es| - 1]) then Some(Apply(before.value, es[|es| - 1])) else None
  }

  lemma NothingHeld(a: Address)
    ensures Holders(INITIAL, a) == 0
  {
    assert Holdings<Key>(map[]) == map[] && Holdings<nat>(map[]) == map[];
  }

  /** In every reachable state counts and gauges are exact and no release error was swallowed. */
  lemma {:induction false} AlwaysExact(es: seq<Event>)
    requires Run(es).Some?
    ensures Inv(Run(es).value)
  {
    if es == [] {
      var s := INITIAL;
      forall id
        ensures Gauge(s.books, id) == |Owned(s.books.accounts, id)|
      {
        assert Owned(s.books.accounts, id) == {};
      }
      forall a ensures Holders(s, a) == 0 { NothingHeld(a); }
    } else {
      AlwaysExact(es[..|es| - 1]);
      StepKeepsInv(Run(es[..|es| - 1]).value, es[|es| - 1]);
    }
  }

  /** No signer of a pooled Cosmos tx is ever owned, or can be taken, by another subpool. */
  lemma PooledSignersAreOurs(es: seq<Event>, k: Key, a: Address, id: int, addrs: seq<Address>)
    requires Run(es).Some?
    requires k in Live(Run(es).value) && a in Live(Run(es).value)[k].signers
    ensures CanRelease(Run(es).value.books, COSMOS, a)
    ensures id != COSMOS && a in addrs ==> Held(Run(es).value.books, id, false, addrs).None?
  {
    hide Run, HoldAll;
    var s := Run(es).value;
    AlwaysExact(es);
    CountPositiveIff(Holdings(Live(s)), a);
    assert k in Holdings(Live(s)) && a in Holdings(Live(s))[k];
    assert Refs(s.books, a) == Holders(s, a);
    assert a in s.books.refs;
    if id != COSMOS && a in addrs {
      var i :| 0 <= i < |addrs| && addrs[i] == a;
      assert !CanHold(s.books, id, addrs[i]);
    }
  }

  /** With no insert in flight and the pool lock free, the Cosmos pool owns exactly the pooled txs' signers. */
  lemma QuietPoolOwnsItsSigners(es: seq<Event>, a: Address)
    requires Run(es).Some? && Run(es).value.phase == Idle && Run(es).value.inflight == map[]
    ensures Refs(Run(es).value.books, a) == Count(Holdings(Run(es).value.pool), a)
    ensures CanRelease(Run(es).value.books, COSMOS, a) <==>
              exists k :: k in Run(es).value.pool && a in Run(es).value.pool[k].signers
  {
    hide Run;
    var s := Run(es).value;
    AlwaysExact(es);
    assert Holdings(s.inflight) == map[];
    CountPositiveIff(Holdings(s.pool), a);
    assert Refs(s.books, a) == Holders(s, a);
    assert a in s.books.refs <==> CanRelease(s.books, COSMOS, a);
    forall k | k in s.pool ensures k in Holdings(s.pool) && Holdings(s.pool)[k] == s.pool[k].signers { }
  }
}
