/** The EVM transactions of a block by price and nonce (mempool/miner/ordering.go). */
module MinerOrdering {
  import opened Common
  import opened BucketQueues
  import Heap = BinaryHeap

  datatype LazyTx = LazyTx(hash: nat, feeCap: nat, tipCap: nat, time: int)

  /** txWithMinerFee. */
  datatype Head = Head(tx: LazyTx, from: Address, fees: nat)

  predicate CoversBaseFee(tx: LazyTx, baseFee: Option<nat>) {
    baseFee.Some? ==> tx.feeCap >= baseFee.value
  }

  /** The effective miner tip of EIP-1559: min(tipCap, feeCap - baseFee), or tipCap without a base fee. */
  function EffectiveTip(tx: LazyTx, baseFee: Option<nat>): (tip: nat)
    requires CoversBaseFee(tx, baseFee)
    ensures tip <= tx.tipCap && (baseFee.None? ==> tip == tx.tipCap)
    ensures baseFee.Some? ==> tip + baseFee.value <= tx.feeCap && (tip == tx.tipCap || tip + baseFee.value == tx.feeCap)
  {
    if baseFee.Some? && tx.feeCap - baseFee.value <= tx.tipCap then tx.feeCap - baseFee.value else tx.tipCap
  }

  /** newTxWithMinerFee: an error when the fee cap is below the base fee. */
  function WithMinerFee(tx: LazyTx, from: Address, baseFee: Option<nat>): (r: Option<Head>)
    ensures r.Some? <==> CoversBaseFee(tx, baseFee)
    ensures r.Some? ==> r.value == Head(tx, from, EffectiveTip(tx, baseFee))
  {
    if baseFee.None? then Some(Head(tx, from, tx.tipCap))
    else if tx.feeCap < baseFee.value then None
    else
      var tip := tx.feeCap - baseFee.value;
      Some(Head(tx, from, if tip > tx.tipCap then tx.tipCap else tip))
  }

  /** txByPriceAndTime.Less: dearer first, earlier first among equals. */
  predicate Less(a: Head, b: Head) {
    if a.fees == b.fees then a.tx.time < b.tx.time else a.fees > b.fees
  }

  function From(h: Head): Address { h.from }

  lemma LessIsOrder()
    ensures Heap.IsOrder(Less)
  {
  }

  /** The heads an account's list will present: its txs up to the first whose fee cap is too low. */
  function Payable(list: seq<LazyTx>, from: Address, baseFee: Option<nat>): (hs: seq<Head>) {
    if list == [] || WithMinerFee(list[0], from, baseFee).None? then []
    else [WithMinerFee(list[0], from, baseFee).value] + Payable(list[1..], from, baseFee)
  }

  /** Payable is the longest prefix of the list whose fee caps all cover the base fee, with the effective tips. */
  lemma {:induction false} PayableIsLongestPrefix(list: seq<LazyTx>, from: Address, baseFee: Option<nat>)
    ensures var n := |Payable(list, from, baseFee)|;
            && n <= |list|
            && (n < |list| ==> !CoversBaseFee(list[n], baseFee))
            && forall i | 0 <= i < n ::
                 && CoversBaseFee(list[i], baseFee)
                 && Payable(list, from, baseFee)[i] == Head(list[i], from, EffectiveTip(list[i], baseFee))
  {
    if list != [] && CoversBaseFee(list[0], baseFee) {
      PayableIsLongestPrefix(list[1..], from, baseFee);
      forall i | 0 <= i < |Payable(list, from, baseFee)|
        ensures CoversBaseFee(list[i], baseFee)
             && Payable(list, from, baseFee)[i] == Head(list[i], from, EffectiveTip(list[i], baseFee))
      {
        if i > 0 { assert list[1..][i - 1] == list[i]; }
      }
    }
  }

  type Lists = map<Address, seq<LazyTx>>

  function AllPayable(txs: Lists, baseFee: Option<nat>): (m: map<Address, seq<Head>>) {
    map a | a in txs :: Payable(txs[a], a, baseFee)
  }

  /** What a transaction set over these lists has to offer: each account's payable prefix, if any. */
  function QueuesOf(txs: Lists, baseFee: Option<nat>): (q: Queues<Address, Head>)
    ensures NonEmpty(q) && KeyedBy(q, From)
  {
    var q := map a | a in txs && Payable(txs[a], a, baseFee) != [] :: Payable(txs[a], a, baseFee);
    assert KeyedBy(q, From) by {
      forall a, i | a in q && 0 <= i < |q[a]| ensures From(q[a][i]) == a {
        PayableIsLongestPrefix(txs[a], a, baseFee);
      }
    }
    q
  }

  /** The heads are a heap of the queues' first entries; the lists hold the rest of every queue. */
  ghost predicate Holds(heads: seq<Head>, txs: Lists, baseFee: Option<nat>, q: Queues<Address, Head>) {
    && Heap.IsHeap(Less, heads)
    && NonEmpty(q) && KeyedBy(q, From)
    && Stores(multiset(heads), From, AllPayable(txs, baseFee), q)
  }

  lemma RootLeads(heads: seq<Head>, txs: Lists, baseFee: Option<nat>, q: Queues<Address, Head>)
    requires Holds(heads, txs, baseFee, q)
    ensures NonEmpty(q)
    ensures heads == [] <==> q == map[]
    ensures heads != [] ==> Best(Less, q, heads[0].from) && q[heads[0].from][0] == heads[0]
  {
    StoresEmpty(heads, From, AllPayable(txs, baseFee), q);
    if heads != [] {
      LessIsOrder();
      assert heads[0] in multiset(heads);
      forall a | a in q
        ensures !Less(q[a][0], heads[0])
      {
        assert q[a][0] in multiset(heads);
        var i :| 0 <= i < |heads| && heads[i] == q[a][0];
        Heap.RootIsBest(Less, heads, i);
      }
    }
  }

  /** Putting the account's next payable tx at the root advances the account. */
  lemma RootReplaced(heads: seq<Head>, txs: Lists, baseFee: Option<nat>, q: Queues<Address, Head>, fixed: seq<Head>)
    requires Holds(heads, txs, baseFee, q) && heads != []
    requires heads[0].from in txs && txs[heads[0].from] != []
    requires WithMinerFee(txs[heads[0].from][0], heads[0].from, baseFee).Some?
    requires Heap.IsHeap(Less, fixed)
    requires multiset(fixed) == multiset(heads[0 := WithMinerFee(txs[heads[0].from][0], heads[0].from, baseFee).value])
    ensures heads[0].from in q && q[heads[0].from] != []
    ensures Holds(fixed, txs[heads[0].from := txs[heads[0].from][1..]], baseFee, Advance(q, heads[0].from))
  {
    var a := heads[0].from;
    FrontReplaced(heads, From, AllPayable(txs, baseFee), q, AllPayable(txs[a := txs[a][1..]], baseFee));
    AdvanceKeepsKeys(From, q, a);
  }

  /** Popping the root drops the account, payable txs or not. */
  lemma RootPopped(heads: seq<Head>, txs: Lists, baseFee: Option<nat>, q: Queues<Address, Head>, popped: seq<Head>)
    requires Holds(heads, txs, baseFee, q) && heads != []
    requires Heap.IsHeap(Less, popped) && multiset(popped) + multiset{heads[0]} == multiset(heads)
    ensures heads[0].from in q && q[heads[0].from] != []
    ensures Holds(popped, txs, baseFee, q - {heads[0].from})
    ensures Payable(At(txs, heads[0].from), heads[0].from, baseFee) == [] ==>
              Advance(q, heads[0].from) == q - {heads[0].from}
  {
    FrontRemoved(heads, From, AllPayable(txs, baseFee), q, popped);
  }

  /** TransactionsByPriceAndNonce. */
  class TransactionSet {
    var txs: Lists
    var heads: seq<Head>
    const baseFee: Option<nat>
    /** What is still on offer, the current head included. */
    ghost var queues: Queues<Address, Head>

    ghost predicate Valid()
      reads this
    {
      Holds(heads, txs, baseFee, queues)
    }

    constructor (txs: Lists, heads: seq<Head>, baseFee: Option<nat>, ghost queues: Queues<Address, Head>)
      requires Holds(heads, txs, baseFee, queues)
      ensures Valid()
      ensures this.txs == txs && this.heads == heads && this.baseFee == baseFee && this.queues == queues
    {
      this.txs, this.heads, this.baseFee, this.queues := txs, heads, baseFee, queues;
    }

    /** Peek: the first entry of an account that no other account's first entry beats. */
    method Peek() returns (r: Option<Head>)
      requires Valid()
      ensures NonEmpty(queues)
      ensures r == None <==> queues == map[]
      ensures r.Some? ==>
                && heads != [] && r.value == heads[0]
                && Best(Less, queues, r.value.from) && queues[r.value.from][0] == r.value
    {
      hide Holds;
      RootLeads(heads, txs, baseFee, queues);
      if |heads| == 0 {
        return None;
      }
      return Some(heads[0]);
    }

    /** Shift: the account of the current head moves to its next tx, or leaves when that one cannot pay. */
    method Shift()
      requires Valid() && heads != []
      modifies this
      ensures Valid()
      ensures NonEmpty(old(queues)) && Fire(Less, old(queues), Take(old(heads[0].from), old(heads[0]))) == Some(queues)
    {
      hide Heap.IsOrder, Stores, KeyedBy;
      LessIsOrder();
      RootLeads(heads, txs, baseFee, queues);
      var acc := heads[0].from;
      if acc in txs && |txs[acc]| > 0 {
        var wrapped := WithMinerFee(txs[acc][0], acc, baseFee);
        if wrapped.Some? {
          var fixed := Heap.FixRoot(Less, heads[0 := wrapped.value]);
          RootReplaced(heads, txs, baseFee, queues, fixed);
          heads, txs := fixed, txs[acc := txs[acc][1..]];
          queues := Advance(queues, acc);
          return;
        }
      }
      var popped, top := Heap.PopRoot(Less, heads);
      RootPopped(heads, txs, baseFee, queues, popped);
      heads := popped;
      queues := Advance(queues, acc);
    }

    /** Pop: the account of the current head leaves with everything it still had. */
    method Pop()
      requires Valid() && heads != []
      modifies this
      ensures Valid()
      ensures NonEmpty(old(queues)) && Fire(Less, old(queues), Skip(old(heads[0].from))) == Some(queues)
    {
      hide Heap.IsOrder, Stores, KeyedBy;
      LessIsOrder();
      RootLeads(heads, txs, baseFee, queues);
      var popped, top := Heap.PopRoot(Less, heads);
      RootPopped(heads, txs, baseFee, queues, popped);
      queues := queues - {heads[0].from};
      heads := popped;
    }
  }

  /** The accounts already visited have lost their first tx, or altogether gone when it cannot pay. */
  ghost predicate HeadsCut(cut: Lists, txs: Lists, baseFee: Option<nat>, todo: set<Address>)
    requires forall a | a in txs :: txs[a] != []
  {
    && cut.Keys <= txs.Keys
    && forall a | a in txs ::
         if a in todo then a in cut && cut[a] == txs[a]
         else if !CoversBaseFee(txs[a][0], baseFee) then a !in cut
         else a in cut && cut[a] == txs[a][1..]
  }

  lemma HeadsUncut(txs: Lists, baseFee: Option<nat>)
    requires forall a | a in txs :: txs[a] != []
    ensures HeadsCut(txs, txs, baseFee, txs.Keys)
  {
  }

  lemma HeadsCutOneMore(cut: Lists, txs: Lists, baseFee: Option<nat>, todo: set<Address>, a: Address, cut': Lists)
    requires forall b | b in txs :: txs[b] != []
    requires HeadsCut(cut, txs, baseFee, todo + {a}) && a in txs && a !in todo
    requires cut' == if CoversBaseFee(txs[a][0], baseFee) then cut[a := txs[a][1..]] else cut - {a}
    ensures HeadsCut(cut', txs, baseFee, todo)
  {
  }

  lemma NothingCollected(txs: Lists, baseFee: Option<nat>)
    ensures Collected(multiset([]), From, QueuesOf(txs, baseFee), txs.Keys)
  {
  }

  /** The loop of NewTransactionsByPriceAndNonce: one head per account that can pay, in any map order. */
  method CollectHeads(txs: Lists, baseFee: Option<nat>) returns (heads: seq<Head>, cut: Lists)
    requires forall a | a in txs :: txs[a] != []
    ensures Collected(multiset(heads), From, QueuesOf(txs, baseFee), {})
    ensures HeadsCut(cut, txs, baseFee, {})
  {
    hide HeadsCut, Collected;
    heads, cut := [], txs;
    HeadsUncut(txs, baseFee);
    NothingCollected(txs, baseFee);
    ghost var q := QueuesOf(txs, baseFee);
    var todo := txs.Keys;
    while todo != {}
      invariant todo <= txs.Keys
      invariant HeadsCut(cut, txs, baseFee, todo)
      invariant Collected(multiset(heads), From, q, todo)
      decreases |todo|
    {
      var a := AnyOf(todo);
      assert (todo - {a}) + {a} == todo;
      todo := todo - {a};
      var wrapped := WithMinerFee(txs[a][0], a, baseFee);
      if wrapped.None? {
        CollectedWithout(multiset(heads), From, q, todo, a);
        HeadsCutOneMore(cut, txs, baseFee, todo, a, cut - {a});
        cut := cut - {a};
      } else {
        assert wrapped.value == q[a][0];
        CollectedOneMore(multiset(heads), From, q, todo, a);
        HeadsCutOneMore(cut, txs, baseFee, todo, a, cut[a := txs[a][1..]]);
        heads := heads + [wrapped.value];
        cut := cut[a := txs[a][1..]];
      }
    }
  }

  lemma QueueSplit(cut: Lists, txs: Lists, baseFee: Option<nat>, a: Address)
    requires forall b | b in txs :: txs[b] != []
    requires HeadsCut(cut, txs, baseFee, {}) && a in QueuesOf(txs, baseFee)
    ensures QueuesOf(txs, baseFee)[a] == [QueuesOf(txs, baseFee)[a][0]] + At(AllPayable(cut, baseFee), a)
  {
  }

  lemma CollectedHolds(heads: seq<Head>, cut: Lists, txs: Lists, baseFee: Option<nat>)
    requires forall a | a in txs :: txs[a] != []
    requires Heap.IsHeap(Less, heads)
    requires Collected(multiset(heads), From, QueuesOf(txs, baseFee), {})
    requires HeadsCut(cut, txs, baseFee, {})
    ensures Holds(heads, cut, baseFee, QueuesOf(txs, baseFee))
  {
    hide HeadsCut, AllPayable, QueuesOf;
    forall a | a in QueuesOf(txs, baseFee)
      ensures QueuesOf(txs, baseFee)[a] == [QueuesOf(txs, baseFee)[a][0]] + At(AllPayable(cut, baseFee), a)
    {
      QueueSplit(cut, txs, baseFee, a);
    }
  }

  /** NewTransactionsByPriceAndNonce; an account with an empty list would make it panic. */
  method NewTransactionSet(txs: Lists, baseFee: Option<nat>) returns (t: TransactionSet)
    requires forall a | a in txs :: txs[a] != []
    ensures fresh(t) && t.Valid() && t.queues == QueuesOf(txs, baseFee) && t.baseFee == baseFee
  {
    hide Heap.IsOrder, Holds, QueuesOf;
    LessIsOrder();
    var heads, cut := CollectHeads(txs, baseFee);
    heads := Heap.Init(Less, heads);
    CollectedHolds(heads, cut, txs, baseFee);
    t := new TransactionSet(cut, heads, baseFee, QueuesOf(txs, baseFee));
  }

  function TxsOf(ms: seq<Move<Address, Head>>): (txs: seq<LazyTx>)
    requires forall i :: 0 <= i < |ms| ==> ms[i].Take?
    ensures |txs| == |ms|
    ensures forall i :: 0 <= i < |ms| ==> txs[i] == ms[i].entry.tx
  {
    seq(|ms|, i requires 0 <= i < |ms| => ms[i].entry.tx)
  }

  /** The n-th tx of the list and all before it have fee caps of at least the base fee. */
  ghost predicate Reachable(list: seq<LazyTx>, baseFee: Option<nat>, n: nat) {
    n < |list| && forall i | 0 <= i <= n :: baseFee.Some? ==> list[i].feeCap >= baseFee.value
  }

  /**
   * tx is the first tx of the account's list that was not yielded before; of all accounts' first such
   * txs that can be reached none has a higher tip, and none of equal tip came earlier.
   */
  ghost predicate IsNext(lists: Lists, baseFee: Option<nat>, before: seq<Address>, from: Address, tx: LazyTx) {
    && from in lists && Reachable(lists[from], baseFee, Times(before, from)) && tx == lists[from][Times(before, from)]
    && CoversBaseFee(tx, baseFee)
    && forall a | a in lists && Reachable(lists[a], baseFee, Times(before, a)) ::
         var other := lists[a][Times(before, a)];
         && CoversBaseFee(other, baseFee)
         && EffectiveTip(tx, baseFee) >= EffectiveTip(other, baseFee)
         && (EffectiveTip(tx, baseFee) == EffectiveTip(other, baseFee) ==> tx.time <= other.time)
  }

  /** The txs come out dearest first, each from the account that keys names, until none can be reached. */
  ghost predicate DearestFirst(lists: Lists, baseFee: Option<nat>, keys: seq<Address>, txs: seq<LazyTx>) {
    && |keys| == |txs|
    && (forall n :: 0 <= n < |txs| ==> IsNext(lists, baseFee, keys[..n], keys[n], txs[n]))
    && (forall a | a in lists :: !Reachable(lists[a], baseFee, Times(keys, a)))
  }

  lemma PayableAt(lists: Lists, baseFee: Option<nat>, a: Address, n: nat)
    ensures n < |At(QueuesOf(lists, baseFee), a)| <==> a in lists && Reachable(lists[a], baseFee, n)
    ensures n < |At(QueuesOf(lists, baseFee), a)| ==>
              && CoversBaseFee(lists[a][n], baseFee)
              && At(QueuesOf(lists, baseFee), a)[n] == Head(lists[a][n], a, EffectiveTip(lists[a][n], baseFee))
  {
    if a in lists {
      PayableIsLongestPrefix(lists[a], a, baseFee);
    }
  }

  lemma DrainStep(lists: Lists, baseFee: Option<nat>, ms: seq<Move<Address, Head>>, n: nat)
    requires Drains(Less, QueuesOf(lists, baseFee), ms) && n < |ms|
    ensures IsNext(lists, baseFee, KeysOf(ms)[..n], ms[n].key, ms[n].entry.tx)
  {
    hide Run, Times, QueuesOf;
    var q, before, from := QueuesOf(lists, baseFee), KeysOf(ms)[..n], ms[n].key;
    BestOfRemaining(Less, q, ms, n, from);
    PayableAt(lists, baseFee, from, Times(before, from));
    forall a | a in lists && Reachable(lists[a], baseFee, Times(before, a))
      ensures var tx, other := ms[n].entry.tx, lists[a][Times(before, a)];
              && CoversBaseFee(other, baseFee)
              && EffectiveTip(tx, baseFee) >= EffectiveTip(other, baseFee)
              && (EffectiveTip(tx, baseFee) == EffectiveTip(other, baseFee) ==> tx.time <= other.time)
    {
      BestOfRemaining(Less, q, ms, n, a);
      PayableAt(lists, baseFee, a, Times(before, a));
    }
  }

  lemma DrainIsDearestFirst(lists: Lists, baseFee: Option<nat>, ms: seq<Move<Address, Head>>)
    requires Drains(Less, QueuesOf(lists, baseFee), ms)
    ensures DearestFirst(lists, baseFee, KeysOf(ms), TxsOf(ms))
  {
    hide Run, Times, IsNext, QueuesOf, Reachable;
    forall n | 0 <= n < |ms| ensures IsNext(lists, baseFee, KeysOf(ms)[..n], KeysOf(ms)[n], TxsOf(ms)[n]) {
      DrainStep(lists, baseFee, ms, n);
    }
    forall a | a in lists ensures !Reachable(lists[a], baseFee, Times(KeysOf(ms), a)) {
      AllNamed(Less, QueuesOf(lists, baseFee), ms, a);
      PayableAt(lists, baseFee, a, Times(KeysOf(ms), a));
    }
  }

  /** Draining by Peek and Shift: dearest first, ties by time, to the very end. */
  method Drain(lists: Lists, baseFee: Option<nat>) returns (txs: seq<LazyTx>, ghost ms: seq<Move<Address, Head>>)
    requires forall a | a in lists :: lists[a] != []
    ensures DearestFirst(lists, baseFee, KeysOf(ms), txs)
    ensures Drains(Less, QueuesOf(lists, baseFee), ms)
    ensures txs == TxsOf(ms)
  {
    hide Holds, QueuesOf, Run, Fire, Best, DearestFirst;
    txs, ms := [], [];
    var t := NewTransactionSet(lists, baseFee);
    ghost var q := QueuesOf(lists, baseFee);
    RunNothing(Less, q);
    var peeked := t.Peek();
    while peeked.Some?
      invariant fresh(t) && t.Valid()
      invariant forall i :: 0 <= i < |ms| ==> ms[i].Take?
      invariant txs == TxsOf(ms)
      invariant Run(Less, q, ms) == Some(t.queues)
      invariant peeked == None <==> t.queues == map[]
      invariant peeked.Some? ==> t.heads != [] && peeked.value == t.heads[0]
      decreases Total(t.queues)
    {
      ghost var before, m := t.queues, Take(peeked.value.from, peeked.value);
      RunOneMore(Less, q, ms, m);
      t.Shift();
      FireShrinks(Less, before, m);
      txs, ms := txs + [peeked.value.tx], ms + [m];
      peeked := t.Peek();
    }
    DrainIsDearestFirst(lists, baseFee, ms);
  }

  /** A drain yields, for each account, exactly its longest payable prefix in list order. */
  lemma DrainYieldsPayablePrefixes(lists: Lists, baseFee: Option<nat>, ms: seq<Move<Address, Head>>, a: Address)
    requires Drains(Less, QueuesOf(lists, baseFee), ms)
    ensures TakenOf(ms, a) == if a in lists then Payable(lists[a], a, baseFee) else []
  {
    DrainTakesAll(Less, QueuesOf(lists, baseFee), ms, a);
  }
}
