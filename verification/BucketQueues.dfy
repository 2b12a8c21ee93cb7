/**
 * What a fee ordering promises, said without a heap: per-account queues, of which each move
 * either takes the first entry of an account whose first entry is beaten by no other, or
 * skips such an account altogether.
 */
module BucketQueues {
  import opened Common

  type Queues<K, H> = map<K, seq<H>>

  datatype Move<K, H> = Take(key: K, entry: H) | Skip(key: K)

  ghost predicate NonEmpty<K, H>(q: Queues<K, H>) {
    forall k | k in q :: q[k] != []
  }

  function At<K, H>(q: Queues<K, H>, k: K): seq<H> {
    if k in q then q[k] else []
  }

  /** k's first entry is beaten by the first entry of no other account. */
  ghost predicate Best<K, H>(less: (H, H) -> bool, q: Queues<K, H>, k: K)
    requires NonEmpty(q)
  {
    k in q && forall k' | k' in q :: !less(q[k'][0], q[k][0])
  }

  /** q once k's first entry is gone; an exhausted account leaves. */
  function Advance<K, H>(q: Queues<K, H>, k: K): (r: Queues<K, H>)
    requires k in q && q[k] != []
  {
    if |q[k]| == 1 then q - {k} else q[k := q[k][1..]]
  }

  /** One move, if the account it names is currently best and the entry is its first. */
  ghost function Fire<K, H>(less: (H, H) -> bool, q: Queues<K, H>, m: Move<K, H>): (r: Option<Queues<K, H>>)
    requires NonEmpty(q)
    ensures r.Some? ==> NonEmpty(r.value)
  {
    if !Best(less, q, m.key) then None
    else match m
      case Take(k, e) => if e == q[k][0] then Some(Advance(q, k)) else None
      case Skip(k) => Some(q - {k})
  }

  /** What remains of q after the moves, if every one of them is allowed. */
  ghost function Run<K, H>(less: (H, H) -> bool, q: Queues<K, H>, ms: seq<Move<K, H>>): (r: Option<Queues<K, H>>)
    requires NonEmpty(q)
    ensures r.Some? ==> NonEmpty(r.value)
  {
    if ms == [] then Some(q)
    else
      var before := Run(less, q, ms[..|ms| - 1]);
      if before.None? then None else Fire(less, before.value, ms[|ms| - 1])
  }

  lemma RunNothing<K, H>(less: (H, H) -> bool, q: Queues<K, H>)
    requires NonEmpty(q)
    ensures Run(less, q, []) == Some(q)
  {
  }

  lemma RunOneMore<K, H>(less: (H, H) -> bool, q: Queues<K, H>, ms: seq<Move<K, H>>, m: Move<K, H>)
    requires NonEmpty(q) && Run(less, q, ms).Some?
    ensures Run(less, q, ms + [m]) == Fire(less, Run(less, q, ms).value, m)
  {
    assert (ms + [m])[..|ms|] == ms;
  }

  lemma {:induction false} PrefixRuns<K, H>(less: (H, H) -> bool, q: Queues<K, H>, ms: seq<Move<K, H>>, n: nat)
    requires NonEmpty(q) && Run(less, q, ms).Some? && n <= |ms|
    ensures Run(less, q, ms[..n]).Some?
  {
    if n == |ms| {
      assert ms[..n] == ms;
    } else {
      PrefixRuns(less, q, ms[..|ms| - 1], n);
      assert ms[..|ms| - 1][..n] == ms[..n];
    }
  }

  /** The n-th move of a run was allowed where it was made. */
  lemma MoveFired<K, H>(less: (H, H) -> bool, q: Queues<K, H>, ms: seq<Move<K, H>>, n: nat)
    requires NonEmpty(q) && Run(less, q, ms).Some? && n < |ms|
    ensures Run(less, q, ms[..n]).Some?
    ensures Fire(less, Run(less, q, ms[..n]).value, ms[n]) == Run(less, q, ms[..n + 1])
    ensures Run(less, q, ms[..n + 1]).Some?
  {
    PrefixRuns(less, q, ms, n + 1);
    assert ms[..n + 1][..n] == ms[..n];
  }

  /** The entries taken from account k, in order. */
  function TakenOf<K(==), H>(ms: seq<Move<K, H>>, k: K): seq<H> {
    if ms == [] then []
    else
      var m := ms[|ms| - 1];
      TakenOf(ms[..|ms| - 1], k) + if m.Take? && m.key == k then [m.entry] else []
  }

  predicate WasSkipped<K(==), H>(ms: seq<Move<K, H>>, k: K) {
    ms != [] && (WasSkipped(ms[..|ms| - 1], k) || (ms[|ms| - 1].Skip? && ms[|ms| - 1].key == k))
  }

  lemma {:induction false} SkipCounts<K, H>(ms: seq<Move<K, H>>, i: nat)
    requires i < |ms| && ms[i].Skip?
    ensures WasSkipped(ms, ms[i].key)
  {
    if i < |ms| - 1 {
      SkipCounts(ms[..|ms| - 1], i);
    }
  }

  /** One move as account k sees it. */
  lemma FireAt<K, H>(less: (H, H) -> bool, q: Queues<K, H>, m: Move<K, H>, k: K)
    requires NonEmpty(q) && Fire(less, q, m).Some?
    ensures m.Take? && m.key == k ==> k in q && At(q, k) == [m.entry] + At(Fire(less, q, m).value, k)
    ensures m == Skip(k) ==> k !in Fire(less, q, m).value
    ensures m.key in q
    ensures m.key != k ==> At(Fire(less, q, m).value, k) == At(q, k) && (k in q <==> k in Fire(less, q, m).value)
  {
  }

  /** Unless k was skipped, what was taken from k and what k still holds are k's queue. */
  lemma {:induction false} TakenAndLeft<K, H>(less: (H, H) -> bool, q: Queues<K, H>, ms: seq<Move<K, H>>, k: K)
    requires NonEmpty(q) && Run(less, q, ms).Some? && !WasSkipped(ms, k)
    ensures TakenOf(ms, k) + At(Run(less, q, ms).value, k) == At(q, k)
  {
    hide Fire, Best, NonEmpty, At;
    if ms == [] {
      assert [] + At(q, k) == At(q, k);
    } else {
      var front, m := ms[..|ms| - 1], ms[|ms| - 1];
      TakenAndLeft(less, q, front, k);
      var mid := Run(less, q, front).value;
      FireAt(less, mid, m, k);
      var rest := At(Fire(less, mid, m).value, k);
      if m.Take? && m.key == k {
        assert (TakenOf(front, k) + [m.entry]) + rest == TakenOf(front, k) + ([m.entry] + rest);
      } else {
        assert TakenOf(front, k) + [] == TakenOf(front, k);
      }
    }
  }

  /** Once k was skipped, what was taken from k is a prefix of its queue and k holds nothing. */
  lemma {:induction false} TakenBeforeSkip<K, H>(less: (H, H) -> bool, q: Queues<K, H>, ms: seq<Move<K, H>>, k: K)
    requires NonEmpty(q) && Run(less, q, ms).Some? && WasSkipped(ms, k)
    ensures TakenOf(ms, k) <= At(q, k) && k !in Run(less, q, ms).value
  {
    hide Fire, Best, NonEmpty, At;
    var front, m := ms[..|ms| - 1], ms[|ms| - 1];
    var mid := Run(less, q, front).value;
    FireAt(less, mid, m, k);
    if WasSkipped(front, k) {
      TakenBeforeSkip(less, q, front, k);
      assert TakenOf(front, k) + [] == TakenOf(front, k);
    } else {
      TakenAndLeft(less, q, front, k);
      assert TakenOf(front, k) + [] == TakenOf(front, k);
    }
  }

  /** After an account is skipped it is never named again. */
  lemma {:induction false} SkippedIsGone<K, H>(less: (H, H) -> bool, q: Queues<K, H>, ms: seq<Move<K, H>>, i: nat,
                                               j: nat)
    requires NonEmpty(q) && Run(less, q, ms).Some?
    requires i < j < |ms| && ms[i].Skip?
    ensures ms[j].key != ms[i].key
  {
    MoveFired(less, q, ms, j);
    SkipCounts(ms[..j], i);
    TakenBeforeSkip(less, q, ms[..j], ms[i].key);
  }

  /** Two different accounts' first entries are never tied. */
  ghost predicate TotalOnKeys<K, H(!new)>(less: (H, H) -> bool, key: H -> K) {
    forall a, b :: key(a) != key(b) ==> less(a, b) || less(b, a)
  }

  ghost predicate KeyedBy<K, H>(q: Queues<K, H>, key: H -> K) {
    forall k, i :: k in q && 0 <= i < |q[k]| ==> key(q[k][i]) == k
  }

  ghost predicate Drains<K, H>(less: (H, H) -> bool, q: Queues<K, H>, ms: seq<Move<K, H>>) {
    && NonEmpty(q)
    && Run(less, q, ms) == Some(map[])
    && forall i :: 0 <= i < |ms| ==> ms[i].Take?
  }

  lemma {:induction false} RunKeepsKeys<K, H>(less: (H, H) -> bool, key: H -> K, q: Queues<K, H>, ms: seq<Move<K, H>>)
    requires NonEmpty(q) && KeyedBy(q, key) && Run(less, q, ms).Some?
    ensures KeyedBy(Run(less, q, ms).value, key)
  {
    if ms != [] {
      RunKeepsKeys(less, key, q, ms[..|ms| - 1]);
    }
  }

  lemma OneBest<K, H(!new)>(less: (H, H) -> bool, key: H -> K, q: Queues<K, H>, a: Move<K, H>, b: Move<K, H>)
    requires TotalOnKeys(less, key) && NonEmpty(q) && KeyedBy(q, key)
    requires a.Take? && b.Take? && Fire(less, q, a).Some? && Fire(less, q, b).Some?
    ensures a == b
  {
    assert key(q[a.key][0]) == a.key && key(q[b.key][0]) == b.key;
  }

  lemma AdvanceKeepsKeys<K, H>(key: H -> K, q: Queues<K, H>, k: K)
    requires NonEmpty(q) && KeyedBy(q, key) && k in q
    ensures NonEmpty(Advance(q, k)) && KeyedBy(Advance(q, k), key)
  {
  }

  /** With no ties the queues alone determine the move: two drains agree step by step. */
  lemma {:induction false} DrainsAgree<K, H(!new)>(less: (H, H) -> bool, key: H -> K, q: Queues<K, H>,
                                                   a: seq<Move<K, H>>, b: seq<Move<K, H>>, n: nat)
    requires TotalOnKeys(less, key) && KeyedBy(q, key)
    requires Drains(less, q, a) && Drains(less, q, b)
    requires n <= |a|
    ensures n <= |b| && a[..n] == b[..n]
  {
    hide Fire, Best, NonEmpty, KeyedBy, TotalOnKeys;
    if n > 0 {
      var m := n - 1;
      DrainsAgree(less, key, q, a, b, m);
      MoveFired(less, q, a, m);
      FireAt(less, Run(less, q, a[..m]).value, a[m], a[m].key);
      assert b[..|b|] == b;
      MoveFired(less, q, b, m);
      RunKeepsKeys(less, key, q, a[..m]);
      OneBest(less, key, Run(less, q, a[..m]).value, a[m], b[m]);
      assert a[..n] == a[..m] + [a[m]] && b[..n] == b[..m] + [b[m]];
    }
  }

  /** A drain without ties is unique, whatever heap or map order produced it. */
  lemma DrainIsUnique<K, H(!new)>(less: (H, H) -> bool, key: H -> K, q: Queues<K, H>, a: seq<Move<K, H>>,
                                  b: seq<Move<K, H>>)
    requires TotalOnKeys(less, key) && KeyedBy(q, key)
    requires Drains(less, q, a) && Drains(less, q, b)
    ensures a == b
  {
    DrainsAgree(less, key, q, a, b, |a|);
    DrainsAgree(less, key, q, b, a, |b|);
    assert a[..|a|] == a && b[..|b|] == b;
  }

  /** A drain takes every account's whole queue, in order. */
  lemma DrainTakesAll<K, H>(less: (H, H) -> bool, q: Queues<K, H>, ms: seq<Move<K, H>>, k: K)
    requires Drains(less, q, ms)
    ensures TakenOf(ms, k) == At(q, k)
  {
    TakesSkipNothing(ms, k);
    TakenAndLeft(less, q, ms, k);
  }

  lemma {:induction false} TakesSkipNothing<K, H>(ms: seq<Move<K, H>>, k: K)
    requires forall i :: 0 <= i < |ms| ==> ms[i].Take?
    ensures !WasSkipped(ms, k)
  {
    if ms != [] {
      TakesSkipNothing(ms[..|ms| - 1], k);
    }
  }

  /** The accounts the moves name, in order. */
  ghost function KeysOf<K, H>(ms: seq<Move<K, H>>): (keys: seq<K>)
    ensures |keys| == |ms|
    ensures forall i :: 0 <= i < |ms| ==> keys[i] == ms[i].key
  {
    seq(|ms|, i requires 0 <= i < |ms| => ms[i].key)
  }

  ghost function Times<K>(keys: seq<K>, k: K): nat { multiset(keys)[k] }

  lemma {:induction false} TakenCount<K, H>(ms: seq<Move<K, H>>, n: nat, k: K)
    requires n <= |ms| && forall i :: 0 <= i < |ms| ==> ms[i].Take?
    ensures |TakenOf(ms[..n], k)| == Times(KeysOf(ms)[..n], k)
  {
    if n > 0 {
      TakenCount(ms, n - 1, k);
      assert ms[..n][..n - 1] == ms[..n - 1];
      assert KeysOf(ms)[..n] == KeysOf(ms)[..n - 1] + [ms[n - 1].key];
    }
  }

  /** What k still holds after the first n moves of a drain: its queue less as many entries as k was named. */
  lemma RemainingAt<K, H>(less: (H, H) -> bool, q: Queues<K, H>, ms: seq<Move<K, H>>, n: nat, k: K)
    requires Drains(less, q, ms) && n <= |ms|
    ensures Run(less, q, ms[..n]).Some? && Times(KeysOf(ms)[..n], k) <= |At(q, k)|
    ensures At(Run(less, q, ms[..n]).value, k) == At(q, k)[Times(KeysOf(ms)[..n], k)..]
  {
    PrefixRuns(less, q, ms, n);
    TakesSkipNothing(ms[..n], k);
    TakenAndLeft(less, q, ms[..n], k);
    TakenCount(ms, n, k);
    var taken, left := TakenOf(ms[..n], k), At(Run(less, q, ms[..n]).value, k);
    assert (taken + left)[|taken|..] == left;
  }

  /**
   * The n-th move of a drain takes the first remaining entry of the account it names, and the first
   * remaining entry of no account beats it.
   */
  lemma BestOfRemaining<K, H>(less: (H, H) -> bool, q: Queues<K, H>, ms: seq<Move<K, H>>, n: nat, k: K)
    requires Drains(less, q, ms) && n < |ms|
    ensures var keys, key := KeysOf(ms)[..n], ms[n].key;
            && key in q && Times(keys, key) < |q[key]| && q[key][Times(keys, key)] == ms[n].entry
            && (k in q && Times(keys, k) < |q[k]| ==> !less(q[k][Times(keys, k)], ms[n].entry))
  {
    hide Run, Times, KeysOf;
    MoveFired(less, q, ms, n);
    RemainingAt(less, q, ms, n, ms[n].key);
    RemainingAt(less, q, ms, n, k);
    assert Run(less, q, ms[..n]).Some?;
  }

  /** In the end every account was named as often as it has entries. */
  lemma AllNamed<K, H>(less: (H, H) -> bool, q: Queues<K, H>, ms: seq<Move<K, H>>, k: K)
    requires Drains(less, q, ms)
    ensures Times(KeysOf(ms), k) == |At(q, k)|
  {
    assert ms[..|ms|] == ms && KeysOf(ms)[..|ms|] == KeysOf(ms);
    RemainingAt(less, q, ms, |ms|, k);
  }

  /** Queues that hold anything have a best account. */
  lemma {:induction false} SomeBest<K, H(!new)>(less: (H, H) -> bool, q: Queues<K, H>)
    requires NonEmpty(q) && q != map[]
    requires forall a, b :: less(a, b) ==> !less(b, a)
    requires forall a, b, c :: !less(a, b) && !less(b, c) ==> !less(a, c)
    ensures exists k :: Best(less, q, k)
    decreases |q|
  {
    var k :| k in q;
    var rest := q - {k};
    if rest == map[] {
      assert q.Keys == {k} by { assert forall j | j in q :: j == k || j in rest; }
      assert !less(q[k][0], q[k][0]);
      assert Best(less, q, k);
    } else {
      SomeBest(less, rest);
      var b :| Best(less, rest, b);
      var best := if less(q[k][0], q[b][0]) then k else b;
      forall j | j in q ensures !less(q[j][0], q[best][0]) {
        assert j == k || j in rest;
        assert !less(q[k][0], q[k][0]);
      }
      assert Best(less, q, best);
    }
  }

  /**
   * How an iterator stores queues: every account's first entry sits among the heads, the rest
   * in a map of tails. It speaks of the multiset of heads, so reordering them keeps it.
   */
  ghost predicate Stores<K, H>(heads: multiset<H>, key: H -> K, tails: map<K, seq<H>>, q: Queues<K, H>) {
    && (forall h | h in heads :: heads[h] == 1 && key(h) in q && q[key(h)] == [h] + At(tails, key(h)))
    && (forall k | k in q :: q[k] != [] && q[k][0] in heads && key(q[k][0]) == k)
  }

  /** Replacing k's head by the first entry of its tail advances k. */
  lemma StoresReplaced<K, H>(heads: multiset<H>, key: H -> K, tails: map<K, seq<H>>, q: Queues<K, H>, h: H,
                             tails': map<K, seq<H>>)
    requires Stores(heads, key, tails, q) && h in heads
    requires At(tails, key(h)) != [] && key(At(tails, key(h))[0]) == key(h)
    requires forall k :: At(tails', k) == if k == key(h) then At(tails, k)[1..] else At(tails, k)
    ensures Stores(heads - multiset{h} + multiset{At(tails, key(h))[0]}, key, tails', Advance(q, key(h)))
  {
    var k := key(h);
    var next := At(tails, k)[0];
    assert q[k] == [h] + At(tails, k);
    var q' := Advance(q, k);
    assert q' == q[k := At(tails, k)];
    var heads' := heads - multiset{h} + multiset{next};
    forall x | x in heads'
      ensures heads'[x] == 1 && key(x) in q' && q'[key(x)] == [x] + At(tails', key(x))
    {
      if x == next {
        if x in heads { assert q[k][0] == h; }
      } else {
        assert x in heads;
      }
    }
    forall j | j in q'
      ensures q'[j] != [] && q'[j][0] in heads' && key(q'[j][0]) == j
    {
    }
  }

  /** Removing k's head drops whatever k still held. */
  lemma StoresRemoved<K, H>(heads: multiset<H>, key: H -> K, tails: map<K, seq<H>>, q: Queues<K, H>, h: H)
    requires Stores(heads, key, tails, q) && h in heads
    ensures Stores(heads - multiset{h}, key, tails, q - {key(h)})
    ensures At(tails, key(h)) == [] ==> Advance(q, key(h)) == q - {key(h)}
  {
    var heads' := heads - multiset{h};
    forall x | x in heads'
      ensures heads'[x] == 1 && key(x) != key(h)
    {
      assert x in heads && q[key(x)][0] == x;
    }
    forall j | j in q && j != key(h)
      ensures q[j][0] in heads'
    {
    }
  }

  lemma StoresEmpty<K, H>(heads: seq<H>, key: H -> K, tails: map<K, seq<H>>, q: Queues<K, H>)
    requires Stores(multiset(heads), key, tails, q)
    ensures heads == [] <==> q == map[]
  {
    if heads != [] {
      assert heads[0] in multiset(heads);
      assert key(heads[0]) in q;
    }
  }

  /** What an advance needs and gives, for the head at the front of the heads. */
  lemma FrontReplaced<K, H>(heads: seq<H>, key: H -> K, tails: map<K, seq<H>>, q: Queues<K, H>, tails': map<K, seq<H>>)
    requires heads != [] && Stores(multiset(heads), key, tails, q)
    requires At(tails, key(heads[0])) != [] && key(At(tails, key(heads[0]))[0]) == key(heads[0])
    requires forall k :: At(tails', k) == if k == key(heads[0]) then At(tails, k)[1..] else At(tails, k)
    ensures key(heads[0]) in q && q[key(heads[0])] == [heads[0]] + At(tails, key(heads[0]))
    ensures Stores(multiset(heads[0 := At(tails, key(heads[0]))[0]]), key, tails', Advance(q, key(heads[0])))
  {
    assert heads[0] in multiset(heads);
    StoresReplaced(multiset(heads), key, tails, q, heads[0], tails');
  }

  lemma FrontRemoved<K, H>(heads: seq<H>, key: H -> K, tails: map<K, seq<H>>, q: Queues<K, H>, rest: seq<H>)
    requires heads != [] && Stores(multiset(heads), key, tails, q)
    requires multiset(rest) + multiset{heads[0]} == multiset(heads)
    ensures key(heads[0]) in q && q[key(heads[0])] == [heads[0]] + At(tails, key(heads[0]))
    ensures Stores(multiset(rest), key, tails, q - {key(heads[0])})
    ensures At(tails, key(heads[0])) == [] ==> Advance(q, key(heads[0])) == q - {key(heads[0])}
  {
    assert heads[0] in multiset(heads);
    StoresRemoved(multiset(heads), key, tails, q, heads[0]);
    assert multiset(rest) == multiset(heads) - multiset{heads[0]};
  }

  /** Heads collected so far when building an iterator: the first entries of the accounts already visited. */
  ghost predicate Collected<K, H>(heads: multiset<H>, key: H -> K, q: Queues<K, H>, todo: set<K>)
    requires NonEmpty(q)
  {
    && (forall h | h in heads :: heads[h] == 1 && key(h) in q && key(h) !in todo && h == q[key(h)][0])
    && (forall k | k in q && k !in todo :: q[k][0] in heads && key(q[k][0]) == k)
  }

  /** An account that offers nothing adds no head. */
  lemma CollectedWithout<K, H>(heads: multiset<H>, key: H -> K, q: Queues<K, H>, todo: set<K>, k: K)
    requires NonEmpty(q) && k !in q && Collected(heads, key, q, todo + {k})
    ensures Collected(heads, key, q, todo)
  {
  }

  lemma CollectedOneMore<K, H>(heads: multiset<H>, key: H -> K, q: Queues<K, H>, todo: set<K>, k: K)
    requires NonEmpty(q) && KeyedBy(q, key) && k in q && k !in todo && Collected(heads, key, q, todo + {k})
    ensures Collected(heads + multiset{q[k][0]}, key, q, todo)
  {
    assert key(q[k][0]) == k;
    assert q[k][0] !in heads;
  }

  /** How many entries the queues hold. */
  ghost function Total<K(!new), H>(q: Queues<K, H>): nat
  {
    if q == map[] then 0
    else
      var k :| k in q;
      |q[k]| + Total(q - {k})
  }

  lemma {:induction false} TotalWithout<K(!new), H>(q: Queues<K, H>, k: K)
    requires k in q
    ensures Total(q) == |q[k]| + Total(q - {k})
    decreases |q|
  {
    var j :| j in q && Total(q) == |q[j]| + Total(q - {j});
    if j != k {
      TotalWithout(q - {j}, k);
      TotalWithout(q - {k}, j);
      assert q - {j} - {k} == q - {k} - {j};
    }
  }

  lemma AdvanceShrinks<K(!new), H>(q: Queues<K, H>, k: K)
    requires k in q && q[k] != []
    ensures Total(Advance(q, k)) == Total(q) - 1
  {
    TotalWithout(q, k);
    if |q[k]| > 1 {
      TotalWithout(Advance(q, k), k);
      assert Advance(q, k) - {k} == q - {k};
    }
  }

  /** Every move leaves fewer entries, which is why a walk ends. */
  lemma FireShrinks<K(!new), H>(less: (H, H) -> bool, q: Queues<K, H>, m: Move<K, H>)
    requires NonEmpty(q) && Fire(less, q, m).Some?
    ensures Total(Fire(less, q, m).value) < Total(q)
  {
    match m
    case Take(k, _) => AdvanceShrinks(q, k);
    case Skip(k) => TotalWithout(q, k);
  }
}
