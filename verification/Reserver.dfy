/**
 * Address reservations shared between subpools (mempool/reserver/reserver.go): a tracker maps
 * each reserved address to the owning subpool id; a handle may count references.
 */
module Reserver {
  import opened Common

  /** What a handle and its tracker record; the gauge is the per-subpool reservation metric. */
  datatype Books = Books(accounts: map<Address, int>, gauge: map<int, int>, refs: map<Address, int>)

  function Gauge(b: Books, id: int): int { if id in b.gauge then b.gauge[id] else 0 }

  function Refs(b: Books, a: Address): int { if a in b.refs then b.refs[a] else 0 }

  predicate CanHold(b: Books, id: int, a: Address) { a in b.accounts ==> b.accounts[a] == id }

  predicate CanRelease(b: Books, id: int, a: Address) { a in b.accounts && b.accounts[a] == id }

  function HoldOne(b: Books, id: int, counted: bool, a: Address): (r: Books) {
    var b1 := if a in b.accounts then b
              else b.(accounts := b.accounts[a := id], gauge := b.gauge[id := Gauge(b, id) + 1]);
    if counted then b1.(refs := b1.refs[a := Refs(b1, a) + 1]) else b1
  }

  function Drop(b: Books, id: int, a: Address): (r: Books) {
    b.(accounts := b.accounts - {a}, gauge := b.gauge[id := Gauge(b, id) - 1])
  }

  function ReleaseOne(b: Books, id: int, counted: bool, a: Address): (r: Books) {
    if !counted then Drop(b, id, a)
    else if a !in b.refs || b.refs[a] <= 1 then Drop(b, id, a).(refs := b.refs - {a})
    else b.(refs := b.refs[a := b.refs[a] - 1])
  }

  function HoldAll(b: Books, id: int, counted: bool, addrs: seq<Address>): (r: Books) {
    if addrs == [] then b
    else HoldOne(HoldAll(b, id, counted, addrs[..|addrs| - 1]), id, counted, addrs[|addrs| - 1])
  }

  function ReleaseAll(b: Books, id: int, counted: bool, addrs: seq<Address>): (r: Books) {
    if addrs == [] then b
    else ReleaseOne(ReleaseAll(b, id, counted, addrs[..|addrs| - 1]), id, counted, addrs[|addrs| - 1])
  }

  /** Hold reserves every address or, when one belongs to another subpool, none. */
  function Held(b: Books, id: int, counted: bool, addrs: seq<Address>): (r: Option<Books>) {
    if forall i :: 0 <= i < |addrs| ==> CanHold(b, id, addrs[i]) then Some(HoldAll(b, id, counted, addrs)) else None
  }

  /** Release gives back every address or, when one is not owned, none. */
  function Released(b: Books, id: int, counted: bool, addrs: seq<Address>): (r: Option<Books>) {
    if forall i :: 0 <= i < |addrs| ==> CanRelease(b, id, addrs[i])
    then Some(ReleaseAll(b, id, counted, addrs)) else None
  }

  ghost predicate NoDuplicates(addrs: seq<Address>) {
    forall i, j :: 0 <= i < j < |addrs| ==> addrs[i] != addrs[j]
  }

  // --- What the books keep ---

  function Owned(accounts: map<Address, int>, id: int): set<Address> {
    set a | a in accounts && accounts[a] == id
  }

  /** Every gauge reads the number of addresses its subpool owns. */
  ghost predicate GaugesExact(b: Books) {
    forall id :: Gauge(b, id) == |Owned(b.accounts, id)|
  }

  /** The counting subpool owns exactly the addresses it counts, and counts them positively. */
  ghost predicate RefsExact(b: Books, counter: int) {
    && (forall a :: a in b.refs <==> a in b.accounts && b.accounts[a] == counter)
    && (forall a | a in b.refs :: b.refs[a] > 0)
  }

  lemma GaugeUp(b: Books, id: int, a: Address)
    requires GaugesExact(b) && a !in b.accounts
    ensures GaugesExact(b.(accounts := b.accounts[a := id], gauge := b.gauge[id := Gauge(b, id) + 1]))
  {
    hide Owned;
    var r := b.(accounts := b.accounts[a := id], gauge := b.gauge[id := Gauge(b, id) + 1]);
    forall i ensures Gauge(r, i) == |Owned(r.accounts, i)| {
      assert Gauge(b, i) == |Owned(b.accounts, i)|;
      OneMoreOwned(b.accounts, id, a, i);
    }
  }

  lemma OneMoreOwned(accounts: map<Address, int>, id: int, a: Address, i: int)
    requires a !in accounts
    ensures |Owned(accounts[a := id], i)| == |Owned(accounts, i)| + if i == id then 1 else 0
  {
    var more := accounts[a := id];
    if i == id {
      assert Owned(more, i) == Owned(accounts, i) + {a};
    } else {
      assert Owned(more, i) == Owned(accounts, i);
    }
  }

  lemma GaugeDown(b: Books, id: int, a: Address)
    requires GaugesExact(b) && CanRelease(b, id, a)
    ensures GaugesExact(Drop(b, id, a))
  {
    var r := Drop(b, id, a);
    assert a in Owned(b.accounts, id);
    forall i ensures Gauge(r, i) == |Owned(r.accounts, i)| {
      assert Gauge(b, i) == |Owned(b.accounts, i)|;
      assert Owned(r.accounts, i) == if i == id then Owned(b.accounts, i) - {a} else Owned(b.accounts, i);
    }
  }

  ghost predicate SameOwner(r: Books, b: Books, x: Address) {
    (x in r.accounts <==> x in b.accounts) && (x in b.accounts ==> r.accounts[x] == b.accounts[x])
  }

  /** One hold: the owner, the count and the gauge of exactly this address move. */
  lemma HoldOneKeeps(b: Books, id: int, counter: int, a: Address)
    requires GaugesExact(b) && RefsExact(b, counter) && CanHold(b, id, a)
    ensures var r := HoldOne(b, id, id == counter, a);
            && GaugesExact(r) && RefsExact(r, counter)
            && r.accounts == b.accounts[a := id]
            && forall x :: Refs(r, x) == Refs(b, x) + if id == counter && x == a then 1 else 0
  {
    if a !in b.accounts { GaugeUp(b, id, a); }
    assert a in b.accounts ==> b.accounts[a := id] == b.accounts;
    var r := HoldOne(b, id, id == counter, a);
    assert GaugesExact(r) by {
      assert forall i :: Gauge(r, i) == Gauge(r.(refs := b.refs), i);
    }
  }

  /** Hold over a list: the listed addresses become owned, each counted once more per mention. */
  lemma {:induction false} HoldAllKeeps(b: Books, id: int, counter: int, addrs: seq<Address>)
    requires GaugesExact(b) && RefsExact(b, counter)
    requires forall i :: 0 <= i < |addrs| ==> CanHold(b, id, addrs[i])
    ensures var r := HoldAll(b, id, id == counter, addrs);
            && GaugesExact(r) && RefsExact(r, counter)
            && (forall x :: x in addrs ==> x in r.accounts && r.accounts[x] == id)
            && (forall x :: x !in addrs ==> SameOwner(r, b, x))
            && (forall x :: Refs(r, x) == Refs(b, x) + if id == counter then multiset(addrs)[x] else 0)
  {
    if addrs != [] {
      var front, a := addrs[..|addrs| - 1], addrs[|addrs| - 1];
      assert addrs == front + [a];
      HoldAllKeeps(b, id, counter, front);
      var mid := HoldAll(b, id, id == counter, front);
      assert CanHold(b, id, a);
      assert CanHold(mid, id, a) by { if a !in front { assert SameOwner(mid, b, a); } }
      HoldOneKeeps(mid, id, counter, a);
    }
  }

  /** One release: the count drops by one and, at the last reference, the address is free. */
  lemma ReleaseOneKeeps(b: Books, id: int, counter: int, a: Address)
    requires GaugesExact(b) && RefsExact(b, counter) && CanRelease(b, id, a)
    ensures var r := ReleaseOne(b, id, id == counter, a);
            && GaugesExact(r) && RefsExact(r, counter)
            && (forall x :: x != a ==> SameOwner(r, b, x))
            && (forall x :: Refs(r, x) == Refs(b, x) - if id == counter && x == a then 1 else 0)
            && (a in r.accounts ==> r.accounts[a] == id && id == counter)
  {
    GaugeDown(b, id, a);
    var r := ReleaseOne(b, id, id == counter, a);
    if r.accounts == b.accounts {
      assert forall i :: Gauge(r, i) == Gauge(b, i);
    } else {
      assert forall i :: Gauge(r, i) == Gauge(Drop(b, id, a), i);
    }
  }

  /** Every address is owned, and listed no more often than it is held. */
  ghost predicate Releasable(b: Books, id: int, counter: int, addrs: seq<Address>) {
    forall x :: x in addrs ==> CanRelease(b, id, x) && multiset(addrs)[x] <= if id == counter then Refs(b, x) else 1
  }

  /** A list without duplicates names each address at most once. */
  lemma {:induction false} NamedOnce(addrs: seq<Address>, x: Address)
    requires NoDuplicates(addrs)
    ensures multiset(addrs)[x] <= 1
  {
    if addrs != [] {
      var front, a := addrs[..|addrs| - 1], addrs[|addrs| - 1];
      assert addrs == front + [a];
      NamedOnce(front, x);
      assert a !in front;
      assert multiset(front)[a] == 0;
    }
  }

  lemma ReleasableFront(b: Books, id: int, counter: int, front: seq<Address>, a: Address)
    requires Releasable(b, id, counter, front + [a])
    ensures Releasable(b, id, counter, front) && CanRelease(b, id, a)
    ensures multiset(front)[a] < if id == counter then Refs(b, a) else 1
  {
    var addrs := front + [a];
    assert multiset(addrs) == multiset(front) + multiset{a};
    assert a in addrs;
    forall x | x in front
      ensures CanRelease(b, id, x) && multiset(front)[x] <= if id == counter then Refs(b, x) else 1
    {
      assert x in addrs;
    }
  }

  /** Release over a list: every count drops by one per mention; nothing else moves. */
  lemma {:induction false} ReleaseAllKeeps(b: Books, id: int, counter: int, addrs: seq<Address>)
    requires GaugesExact(b) && RefsExact(b, counter) && Releasable(b, id, counter, addrs)
    ensures var r := ReleaseAll(b, id, id == counter, addrs);
            && GaugesExact(r) && RefsExact(r, counter)
            && (forall x :: x !in addrs ==> SameOwner(r, b, x))
            && (forall x :: Refs(r, x) == Refs(b, x) - if id == counter then multiset(addrs)[x] else 0)
            && (forall x :: x in addrs && x in r.accounts ==> r.accounts[x] == id && id == counter)
  {
    if addrs != [] {
      var front, a := addrs[..|addrs| - 1], addrs[|addrs| - 1];
      assert addrs == front + [a];
      ReleasableFront(b, id, counter, front, a);
      ReleaseAllKeeps(b, id, counter, front);
      var mid := ReleaseAll(b, id, id == counter, front);
      assert CanRelease(mid, id, a) by {
        if id == counter {
          assert Refs(mid, a) > 0;
          assert a in mid.refs;
        } else {
          assert SameOwner(mid, b, a);
        }
      }
      ReleaseOneKeeps(mid, id, counter, a);
    }
  }

  /** What the dry run of Release checks of it. */
  lemma ReleasableIsReleased(b: Books, id: int, counter: int, addrs: seq<Address>)
    requires Releasable(b, id, counter, addrs)
    ensures Released(b, id, id == counter, addrs) == Some(ReleaseAll(b, id, id == counter, addrs))
  {
  }

  /** Releasing what was just held restores every owner, every count and every gauge. */
  lemma HoldThenRelease(b: Books, id: int, counter: int, addrs: seq<Address>)
    requires GaugesExact(b) && RefsExact(b, counter)
    requires id == counter && Held(b, id, true, addrs).Some?
    ensures var r := Released(Held(b, id, true, addrs).value, id, true, addrs);
            && r.Some? && r.value.accounts == b.accounts && r.value.refs == b.refs
            && forall i :: Gauge(r.value, i) == Gauge(b, i)
  {
    hide HoldAll, ReleaseAll;
    HoldAllKeeps(b, id, counter, addrs);
    var h := Held(b, id, true, addrs).value;
    assert Releasable(h, id, counter, addrs) by {
      forall x | x in addrs ensures CanRelease(h, id, x) && multiset(addrs)[x] <= Refs(h, x) {
        NonNegativeRefs(b, counter, x);
      }
    }
    ReleasableIsReleased(h, id, counter, addrs);
    ReleaseAllKeeps(h, id, counter, addrs);
    var r := Released(h, id, true, addrs).value;
    SameCounts(b, r, counter);
    forall x ensures SameOwner(r, b, x) {
      assert x in r.refs <==> x in b.refs;
      if x in addrs {
        var i :| 0 <= i < |addrs| && addrs[i] == x;
        assert CanHold(b, id, addrs[i]);
      } else {
        assert SameOwner(h, b, x) && SameOwner(r, h, x);
      }
    }
    SameOwners(r, b);
  }

  lemma SameOwners(r: Books, b: Books)
    requires forall x :: SameOwner(r, b, x)
    ensures r.accounts == b.accounts
  {
    forall x ensures x in r.accounts <==> x in b.accounts { assert SameOwner(r, b, x); }
    forall x | x in b.accounts ensures r.accounts[x] == b.accounts[x] { assert SameOwner(r, b, x); }
  }

  lemma NonNegativeRefs(b: Books, counter: int, x: Address)
    requires RefsExact(b, counter)
    ensures Refs(b, x) >= 0
  {
  }

  lemma SameCounts(b: Books, r: Books, counter: int)
    requires RefsExact(b, counter) && RefsExact(r, counter) && forall x :: Refs(r, x) == Refs(b, x)
    ensures r.refs == b.refs
  {
    forall x ensures x in r.refs <==> x in b.refs { assert Refs(r, x) == Refs(b, x); }
    forall x | x in r.refs ensures r.refs[x] == b.refs[x] { assert Refs(r, x) == Refs(b, x); }
  }

  // --- Counting holders ---

  /** How often address a occurs in the lists of m, all told. */
  ghost function Count<K(!new)>(m: map<K, seq<Address>>, a: Address): nat {
    if m == map[] then 0
    else
      var k :| k in m;
      multiset(m[k])[a] + Count(m - {k}, a)
  }

  lemma {:induction false} CountWithout<K(!new)>(m: map<K, seq<Address>>, k: K, a: Address)
    requires k in m
    ensures Count(m, a) == multiset(m[k])[a] + Count(m - {k}, a)
    decreases |m|
  {
    var j :| j in m && Count(m, a) == multiset(m[j])[a] + Count(m - {j}, a);
    if j != k {
      CountWithout(m - {j}, k, a);
      CountWithout(m - {k}, j, a);
      assert m - {j} - {k} == m - {k} - {j};
    }
  }

  lemma CountWith<K(!new)>(m: map<K, seq<Address>>, k: K, addrs: seq<Address>, a: Address)
    requires k !in m
    ensures Count(m[k := addrs], a) == multiset(addrs)[a] + Count(m, a)
  {
    CountWithout(m[k := addrs], k, a);
    assert m[k := addrs] - {k} == m;
  }

  /** The count is positive exactly when some list names the address. */
  lemma {:induction false} CountPositiveIff<K(!new)>(m: map<K, seq<Address>>, a: Address)
    ensures Count(m, a) > 0 <==> exists k :: k in m && a in m[k]
    decreases |m|
  {
    if m != map[] {
      var j :| j in m && Count(m, a) == multiset(m[j])[a] + Count(m - {j}, a);
      CountPositiveIff(m - {j}, a);
      if k :| k in m && a in m[k] {
        if k != j { assert k in m - {j} && (m - {j})[k] == m[k]; }
      }
      if k :| k in m - {j} && a in (m - {j})[k] { assert k in m && m[k] == (m - {j})[k]; }
    }
  }

  // --- The tracker and its handles ---

  // --- What Hold and Release ask for and do, said on owners and counts ---

  /** r is b with the listed addresses owned by id and, if counted, one reference more per mention. */
  ghost predicate HeldAs(b: Books, r: Books, id: int, counted: bool, addrs: seq<Address>) {
    && (forall a :: a in r.accounts <==> a in addrs || a in b.accounts)
    && (forall a | a in r.accounts :: r.accounts[a] == if a in addrs then id else b.accounts[a])
    && (forall a :: Refs(r, a) == Refs(b, a) + if counted then multiset(addrs)[a] else 0)
  }

  lemma HoldIff(b: Books, id: int, addrs: seq<Address>)
    ensures (forall i :: 0 <= i < |addrs| ==> CanHold(b, id, addrs[i])) <==>
              forall a | a in addrs && a in b.accounts :: b.accounts[a] == id
  {
  }

  lemma ReleaseIff(b: Books, id: int, addrs: seq<Address>)
    ensures (forall i :: 0 <= i < |addrs| ==> CanRelease(b, id, addrs[i])) <==>
              forall a | a in addrs :: a in b.accounts && b.accounts[a] == id
  {
  }

  lemma {:induction false} HoldAllMeans(b: Books, id: int, counted: bool, addrs: seq<Address>)
    requires forall i :: 0 <= i < |addrs| ==> CanHold(b, id, addrs[i])
    ensures HeldAs(b, HoldAll(b, id, counted, addrs), id, counted, addrs)
  {
    if addrs != [] {
      hide HeldAs, HoldOne;
      var front, a := addrs[..|addrs| - 1], addrs[|addrs| - 1];
      assert addrs == front + [a];
      HoldAllMeans(b, id, counted, front);
      assert CanHold(b, id, a);
      HeldOneMore(b, HoldAll(b, id, counted, front), id, counted, front, a);
    }
  }

  lemma HeldOneMore(b: Books, mid: Books, id: int, counted: bool, front: seq<Address>, a: Address)
    requires HeldAs(b, mid, id, counted, front) && CanHold(b, id, a)
    ensures HeldAs(b, HoldOne(mid, id, counted, a), id, counted, front + [a])
  {
    assert forall x :: x in front + [a] <==> x in front || x == a;
    assert multiset(front + [a]) == multiset(front) + multiset{a};
  }

  class ReservationTracker {
    var accounts: map<Address, int>
    var gauge: map<int, int>

    constructor ()
      ensures accounts == map[] && gauge == map[]
    {
      accounts, gauge := map[], map[];
    }
  }

  class ReservationHandle {
    const tracker: ReservationTracker
    const id: int
    const enableRefCount: bool
    var refsCounter: map<Address, int>

    constructor (tracker: ReservationTracker, id: int, enableRefCount: bool)
      ensures this.tracker == tracker && this.id == id && this.enableRefCount == enableRefCount && refsCounter == map[]
    {
      this.tracker, this.id, this.enableRefCount, this.refsCounter := tracker, id, enableRefCount, map[];
    }

    ghost function State(): Books
      reads this, tracker
    {
      Books(tracker.accounts, tracker.gauge, refsCounter)
    }

    /** Has: another subpool owns the address. */
    method Has(address: Address) returns (r: bool)
      ensures r <==> address in tracker.accounts && tracker.accounts[address] != id
    {
      r := address in tracker.accounts && tracker.accounts[address] != id;
    }

    /** The first loop of Hold: would every address be granted? */
    method DryRunHold(addrs: seq<Address>) returns (ok: bool)
      ensures ok <==> forall i :: 0 <= i < |addrs| ==> CanHold(State(), id, addrs[i])
    {
      for i := 0 to |addrs|
        invariant forall j :: 0 <= j < i ==> CanHold(State(), id, addrs[j])
      {
        if addrs[i] in tracker.accounts && tracker.accounts[addrs[i]] != id {
          assert !CanHold(State(), id, addrs[i]);
          return false;
        }
      }
      return true;
    }

    /** Hold: a dry run over all addresses, then the updates. */
    method Hold(addrs: seq<Address>) returns (ok: bool)
      modifies this, tracker
      ensures ok <==> Held(old(State()), id, enableRefCount, addrs).Some?
      ensures State() == if ok then Held(old(State()), id, enableRefCount, addrs).value else old(State())
      ensures ok <==> forall a | a in addrs && a in old(tracker.accounts) :: old(tracker.accounts)[a] == id
      ensures ok ==> HeldAs(old(State()), State(), id, enableRefCount, addrs)
    {
      hide HoldOne, CanHold, HeldAs;
      HoldIff(State(), id, addrs);
      ok := DryRunHold(addrs);
      if !ok {
        return;
      }
      for i := 0 to |addrs|
        invariant State() == HoldAll(old(State()), id, enableRefCount, addrs[..i])
      {
        HoldAllOneMore(old(State()), id, enableRefCount, addrs, i);
        HoldAddress(addrs[i]);
      }
      assert addrs[..|addrs|] == addrs;
      HoldAllMeans(old(State()), id, enableRefCount, addrs);
    }

    /** The body of Hold's second loop. */
    method HoldAddress(a: Address)
      modifies this, tracker
      ensures State() == HoldOne(old(State()), id, enableRefCount, a)
    {
      if a !in tracker.accounts {
        tracker.accounts := tracker.accounts[a := id];
        tracker.gauge := tracker.gauge[id := (if id in tracker.gauge then tracker.gauge[id] else 0) + 1];
      }
      if enableRefCount {
        refsCounter := refsCounter[a := (if a in refsCounter then refsCounter[a] else 0) + 1];
      }
    }

    /** The first loop of Release: is every address owned? */
    method DryRunRelease(addrs: seq<Address>) returns (ok: bool)
      ensures ok <==> forall i :: 0 <= i < |addrs| ==> CanRelease(State(), id, addrs[i])
    {
      for i := 0 to |addrs|
        invariant forall j :: 0 <= j < i ==> CanRelease(State(), id, addrs[j])
      {
        if addrs[i] !in tracker.accounts || tracker.accounts[addrs[i]] != id {
          assert !CanRelease(State(), id, addrs[i]);
          return false;
        }
      }
      return true;
    }

    /** Release: a dry run over all addresses, then the updates. */
    method Release(addrs: seq<Address>) returns (ok: bool)
      modifies this, tracker
      ensures ok <==> Released(old(State()), id, enableRefCount, addrs).Some?
      ensures State() == if ok then Released(old(State()), id, enableRefCount, addrs).value else old(State())
      ensures ok <==> forall a | a in addrs :: a in old(tracker.accounts) && old(tracker.accounts)[a] == id
    {
      hide ReleaseOne, CanRelease;
      ReleaseIff(State(), id, addrs);
      ok := DryRunRelease(addrs);
      if !ok {
        return;
      }
      for i := 0 to |addrs|
        invariant State() == ReleaseAll(old(State()), id, enableRefCount, addrs[..i])
      {
        ReleaseAllOneMore(old(State()), id, enableRefCount, addrs, i);
        ReleaseAddress(addrs[i]);
      }
      assert addrs[..|addrs|] == addrs;
    }

    /** The body of Release's second loop. */
    method ReleaseAddress(a: Address)
      modifies this, tracker
      ensures State() == ReleaseOne(old(State()), id, enableRefCount, a)
    {
      if enableRefCount && a in refsCounter && refsCounter[a] > 1 {
        refsCounter := refsCounter[a := refsCounter[a] - 1];
        return;
      }
      if enableRefCount {
        refsCounter := refsCounter - {a};
      }
      tracker.accounts := tracker.accounts - {a};
      tracker.gauge := tracker.gauge[id := (if id in tracker.gauge then tracker.gauge[id] else 0) - 1];
    }
  }

  lemma HoldAllOneMore(b: Books, id: int, counted: bool, addrs: seq<Address>, i: nat)
    requires i < |addrs|
    ensures HoldAll(b, id, counted, addrs[..i + 1]) ==
            HoldOne(HoldAll(b, id, counted, addrs[..i]), id, counted, addrs[i])
  {
    assert addrs[..i + 1][..i] == addrs[..i];
  }

  lemma ReleaseAllOneMore(b: Books, id: int, counted: bool, addrs: seq<Address>, i: nat)
    requires i < |addrs|
    ensures ReleaseAll(b, id, counted, addrs[..i + 1]) ==
            ReleaseOne(ReleaseAll(b, id, counted, addrs[..i]), id, counted, addrs[i])
  {
    assert addrs[..i + 1][..i] == addrs[..i];
  }
}
