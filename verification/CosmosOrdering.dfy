/** The fee-ordered iterator over signer buckets (mempool/cosmos_ordering.go). */
module CosmosOrdering {
  import opened Common
  import opened CosmosTypes
  import opened BucketQueues
  import Heap = BinaryHeap

  type SignerKey = string

  const UINT256_LIMIT: int := 0x1_0000_0000_0000_0000_0000_0000_0000_0000_0000_0000_0000_0000_0000_0000_0000_0000

  /** cosmosTxWithPriority. */
  datatype Head = Head(tx: StoredTx, signerKey: SignerKey, fee: nat)

  /** cosmosTxByPriceAndNonce.Less: dearer first, then the smaller signer key, then store order. */
  predicate Less(a: Head, b: Head) {
    if a.fee != b.fee then a.fee > b.fee
    else if a.signerKey != b.signerKey then LexLess(a.signerKey, b.signerKey)
    else StoredLess(a.tx, b.tx)
  }

  function KeyOf(h: Head): SignerKey { h.signerKey }

  lemma LessAsymmetric(a: Head, b: Head)
    ensures !(Less(a, b) && Less(b, a))
  {
    LexTrichotomy(a.signerKey, b.signerKey);
    StoredLessTrichotomy(a.tx, b.tx);
  }

  lemma NotLessTransitive(a: Head, b: Head, c: Head)
    requires !Less(a, b) && !Less(b, c)
    ensures !Less(a, c)
  {
    if Less(a, c) && a.fee == b.fee == c.fee {
      LexTrichotomy(a.signerKey, b.signerKey);
      LexTrichotomy(b.signerKey, c.signerKey);
      if a.signerKey == b.signerKey == c.signerKey {
        StoredNotLessTransitive(a.tx, b.tx, c.tx);
      } else if a.signerKey != b.signerKey && b.signerKey != c.signerKey {
        LexTransitive(c.signerKey, b.signerKey, a.signerKey);
        LexTrichotomy(a.signerKey, c.signerKey);
      }
    }
  }

  lemma StoredNotLessTransitive(a: StoredTx, b: StoredTx, c: StoredTx)
    requires !StoredLess(a, b) && !StoredLess(b, c)
    ensures !StoredLess(a, c)
  {
    StoredLessTrichotomy(a, b);
    StoredLessTrichotomy(b, c);
    StoredLessTrichotomy(a, c);
    if StoredLess(b, a) && StoredLess(c, b) {
      StoredLessTransitive(c, b, a);
    }
  }

  /** Less orders heads, and never ties two heads of different signer keys. */
  lemma LessIsTotalOnKeys()
    ensures Heap.IsOrder(Less) && TotalOnKeys(Less, KeyOf)
  {
    forall a: Head, b: Head ensures !(Less(a, b) && Less(b, a)) { LessAsymmetric(a, b); }
    forall a: Head, b: Head, c: Head | !Less(a, b) && !Less(b, c) ensures !Less(a, c) { NotLessTransitive(a, b, c); }
    forall a: Head, b: Head | KeyOf(a) != KeyOf(b)
      ensures Less(a, b) || Less(b, a)
    {
      LexTrichotomy(a.signerKey, b.signerKey);
    }
  }

  /** The amount of the last coin of the bond denomination, 0 when there is none. */
  ghost predicate IsBondAmount(coins: seq<Coin>, denom: string, amount: nat) {
    || (amount == 0 && forall i :: 0 <= i < |coins| ==> coins[i].denom != denom)
    || (exists i :: 0 <= i < |coins| && coins[i] == Coin(denom, amount)
                    && forall j :: i < j < |coins| ==> coins[j].denom != denom)
  }

  function BondAmount(coins: seq<Coin>, denom: string): (amount: nat)
    ensures IsBondAmount(coins, denom, amount)
  {
    if coins == [] then 0
    else
      var n := |coins| - 1;
      if coins[n].denom == denom then coins[n].amount
      else
        var amount := BondAmount(coins[..n], denom);
        assert forall j :: 0 <= j < n ==> coins[..n][j] == coins[j];
        amount
  }

  /** The tip of a tx above the base fee per unit of gas: max(0, fee / gas - baseFee) when that fits 256 bits. */
  function EffectiveTip(tx: CosmosTx, denom: string, baseFee: Option<nat>): (tip: nat) {
    if tx.fee.None? || tx.fee.value.gas == 0 then 0
    else
      var price := BondAmount(tx.fee.value.coins, denom) / tx.fee.value.gas;
      if price >= UINT256_LIMIT then 0
      else if baseFee.None? then price
      else if price < baseFee.value then 0
      else price - baseFee.value
  }

  lemma BondAmountIsUnique(coins: seq<Coin>, denom: string, a: nat, b: nat)
    requires IsBondAmount(coins, denom, a) && IsBondAmount(coins, denom, b)
    ensures a == b
  {
  }

  /** Without a fee or gas there is no tip; otherwise it is the rounded-down gas price above the base fee. */
  lemma EffectiveTipIs(tx: CosmosTx, denom: string, baseFee: Option<nat>, amount: nat, price: nat)
    ensures tx.fee.None? || tx.fee.value.gas == 0 ==> EffectiveTip(tx, denom, baseFee) == 0
    ensures tx.fee.Some? && IsBondAmount(tx.fee.value.coins, denom, amount)
            && price * tx.fee.value.gas <= amount < price * tx.fee.value.gas + tx.fee.value.gas ==>
              var base := if baseFee.Some? then baseFee.value else 0;
              EffectiveTip(tx, denom, baseFee) == if base <= price < UINT256_LIMIT then price - base else 0
  {
    if tx.fee.Some? && tx.fee.value.gas > 0 && IsBondAmount(tx.fee.value.coins, denom, amount) {
      BondAmountIsUnique(tx.fee.value.coins, denom, amount, BondAmount(tx.fee.value.coins, denom));
      if price * tx.fee.value.gas <= amount < price * tx.fee.value.gas + tx.fee.value.gas {
        QuotientIs(amount, tx.fee.value.gas, price);
      }
    }
  }

  lemma QuotientIs(amount: nat, gas: nat, price: nat)
    requires price * gas <= amount < price * gas + gas
    ensures gas > 0 && amount / gas == price
  {
    var q := amount / gas;
    assert q * gas <= amount < q * gas + gas;
    if q < price {
      TimesMonotone(q + 1, price, gas);
    } else if q > price {
      TimesMonotone(price + 1, q, gas);
    }
  }

  lemma TimesMonotone(a: nat, b: nat, g: nat)
    requires a <= b
    ensures a * g <= b * g
  {
  }

  /** extractCosmosEffectiveTip, with its loop over the fee coins. */
  method ExtractEffectiveTip(tx: CosmosTx, denom: string, baseFee: Option<nat>) returns (tip: nat)
    ensures tip == EffectiveTip(tx, denom, baseFee)
  {
    hide IsBondAmount;
    if tx.fee.None? {
      return 0;
    }
    var coins := tx.fee.value.coins;
    var amount := 0;
    for i := 0 to |coins|
      invariant amount == BondAmount(coins[..i], denom)
    {
      if coins[i].denom == denom {
        amount := coins[i].amount;
      }
      assert coins[..i + 1][..i] == coins[..i];
    }
    assert coins[..|coins|] == coins;
    if tx.fee.value.gas == 0 {
      return 0;
    }
    var price := amount / tx.fee.value.gas;
    if price >= UINT256_LIMIT {
      return 0;
    }
    if baseFee.None? {
      return price;
    }
    if price < baseFee.value {
      return 0;
    }
    return price - baseFee.value;
  }

  /** A bucket's txs as the heads they will become. */
  function AsHeads(bucket: seq<StoredTx>, key: SignerKey, denom: string, baseFee: Option<nat>): (hs: seq<Head>)
    ensures |hs| == |bucket|
    ensures forall i :: 0 <= i < |hs| ==> hs[i] == Head(bucket[i], key, EffectiveTip(bucket[i].tx, denom, baseFee))
  {
    seq(|bucket|, i requires 0 <= i < |bucket| => Head(bucket[i], key, EffectiveTip(bucket[i].tx, denom, baseFee)))
  }

  function AllHeads(buckets: map<SignerKey, seq<StoredTx>>, denom: string,
                    baseFee: Option<nat>): (q: map<SignerKey, seq<Head>>) {
    map k | k in buckets :: AsHeads(buckets[k], k, denom, baseFee)
  }

  /** The queues an iterator over these buckets has to drain: the buckets that hold a tx. */
  function QueuesOf(buckets: map<SignerKey, seq<StoredTx>>, denom: string,
                    baseFee: Option<nat>): (q: Queues<SignerKey, Head>)
    ensures NonEmpty(q) && KeyedBy(q, KeyOf)
  {
    map k | k in buckets && buckets[k] != [] :: AsHeads(buckets[k], k, denom, baseFee)
  }

  /** The heads are a heap of the queues' first entries; the map holds the rest of every queue. */
  ghost predicate Holds(heads: seq<Head>, txs: map<SignerKey, seq<StoredTx>>, denom: string, baseFee: Option<nat>,
                        q: Queues<SignerKey, Head>)
  {
    && Heap.IsHeap(Less, heads)
    && NonEmpty(q) && KeyedBy(q, KeyOf)
    && Stores(multiset(heads), KeyOf, AllHeads(txs, denom, baseFee), q)
  }

  /** The root of the heap belongs to the best account; an empty heap means empty queues. */
  lemma RootLeads(heads: seq<Head>, txs: map<SignerKey, seq<StoredTx>>, denom: string, baseFee: Option<nat>,
                  q: Queues<SignerKey, Head>)
    requires Holds(heads, txs, denom, baseFee, q)
    ensures NonEmpty(q)
    ensures heads == [] <==> q == map[]
    ensures heads != [] ==> Best(Less, q, heads[0].signerKey) && q[heads[0].signerKey][0] == heads[0]
  {
    StoresEmpty(heads, KeyOf, AllHeads(txs, denom, baseFee), q);
    if heads != [] {
      LessIsTotalOnKeys();
      assert heads[0] in multiset(heads);
      forall k | k in q
        ensures !Less(q[k][0], heads[0])
      {
        assert q[k][0] in multiset(heads);
        var i :| 0 <= i < |heads| && heads[i] == q[k][0];
        Heap.RootIsBest(Less, heads, i);
      }
    }
  }

  /** Putting the account's next tx at the root, and restoring the heap, advances the account. */
  lemma RootReplaced(heads: seq<Head>, txs: map<SignerKey, seq<StoredTx>>, denom: string, baseFee: Option<nat>,
                     q: Queues<SignerKey, Head>, next: Head, fixed: seq<Head>)
    requires Holds(heads, txs, denom, baseFee, q) && heads != []
    requires heads[0].signerKey in txs && txs[heads[0].signerKey] != []
    requires next == AsHeads(txs[heads[0].signerKey], heads[0].signerKey, denom, baseFee)[0]
    requires Heap.IsHeap(Less, fixed) && multiset(fixed) == multiset(heads[0 := next])
    ensures heads[0].signerKey in q && q[heads[0].signerKey] != []
    ensures var key := heads[0].signerKey;
            Holds(fixed, txs[key := txs[key][1..]], denom, baseFee, Advance(q, key))
  {
    var key := heads[0].signerKey;
    TailsAdvance(txs, key, denom, baseFee);
    FrontReplaced(heads, KeyOf, AllHeads(txs, denom, baseFee), q, AllHeads(txs[key := txs[key][1..]], denom, baseFee));
    AdvanceKeepsKeys(KeyOf, q, key);
  }

  /** Popping the root of an account with nothing left drops the account. */
  lemma RootPopped(heads: seq<Head>, txs: map<SignerKey, seq<StoredTx>>, denom: string, baseFee: Option<nat>,
                   q: Queues<SignerKey, Head>, popped: seq<Head>)
    requires Holds(heads, txs, denom, baseFee, q) && heads != []
    requires At(txs, heads[0].signerKey) == []
    requires Heap.IsHeap(Less, popped) && multiset(popped) + multiset{heads[0]} == multiset(heads)
    ensures heads[0].signerKey in q && q[heads[0].signerKey] != []
    ensures Holds(popped, txs, denom, baseFee, Advance(q, heads[0].signerKey))
  {
    FrontRemoved(heads, KeyOf, AllHeads(txs, denom, baseFee), q, popped);
    AdvanceKeepsKeys(KeyOf, q, heads[0].signerKey);
  }

  lemma TailsAdvance(txs: map<SignerKey, seq<StoredTx>>, key: SignerKey, denom: string, baseFee: Option<nat>)
    requires key in txs && txs[key] != []
    ensures var tails, tails' := AllHeads(txs, denom, baseFee), AllHeads(txs[key := txs[key][1..]], denom, baseFee);
            && At(tails, key) != []
            && At(tails, key)[0] == AsHeads(txs[key], key, denom, baseFee)[0]
            && forall k :: At(tails', k) == if k == key then At(tails, k)[1..] else At(tails, k)
  {
  }

  /** CosmosTransactionsByPriceAndNonce. */
  class Iterator {
    var txs: map<SignerKey, seq<StoredTx>>
    var heads: seq<Head>
    const bondDenom: string
    const baseFee: Option<nat>
    /** What is still to be yielded, the current tx included. */
    ghost var queues: Queues<SignerKey, Head>

    ghost predicate Valid()
      reads this
    {
      Holds(heads, txs, bondDenom, baseFee, queues)
    }

    constructor (txs: map<SignerKey, seq<StoredTx>>, heads: seq<Head>, denom: string, baseFee: Option<nat>,
                 ghost queues: Queues<SignerKey, Head>)
      requires Holds(heads, txs, denom, baseFee, queues)
      ensures Valid()
      ensures this.txs == txs && this.heads == heads && this.bondDenom == denom && this.baseFee == baseFee &&
              this.queues == queues
    {
      this.txs, this.heads, this.bondDenom, this.baseFee, this.queues := txs, heads, denom, baseFee, queues;
    }

    /** Tx: the current tx, which is the first of the best bucket. */
    method Tx() returns (tx: Option<CosmosTx>)
      requires Valid()
      ensures NonEmpty(queues)
      ensures queues == map[] ==> tx == None
      ensures queues != map[] ==>
                heads != [] && Best(Less, queues, heads[0].signerKey)
                && queues[heads[0].signerKey][0] == heads[0] && tx == Some(heads[0].tx.tx)
    {
      hide Holds;
      RootLeads(heads, txs, bondDenom, baseFee, queues);
      if |heads| == 0 {
        return None;
      }
      return Some(heads[0].tx.tx);
    }

    /** Next: the bucket of the current tx advances; the answer says whether a tx is left. */
    method Next() returns (more: bool)
      requires Valid()
      modifies this
      ensures Valid()
      ensures old(heads) == [] ==> queues == old(queues)
      ensures old(heads) != [] ==>
                && NonEmpty(old(queues))
                && Fire(Less, old(queues), Take(old(heads[0].signerKey), old(heads[0]))) == Some(queues)
      ensures more <==> queues != map[]
    {
      hide Heap.IsOrder, TotalOnKeys, Stores, KeyedBy;
      LessIsTotalOnKeys();
      RootLeads(heads, txs, bondDenom, baseFee, queues);
      if |heads| == 0 {
        return false;
      }
      var key := heads[0].signerKey;
      if key in txs && |txs[key]| > 0 {
        var tip := ExtractEffectiveTip(txs[key][0].tx, bondDenom, baseFee);
        var next := Head(txs[key][0], key, tip);
        var fixed := Heap.FixRoot(Less, heads[0 := next]);
        RootReplaced(heads, txs, bondDenom, baseFee, queues, next, fixed);
        heads, txs := fixed, txs[key := txs[key][1..]];
      } else {
        var popped, top := Heap.PopRoot(Less, heads);
        RootPopped(heads, txs, bondDenom, baseFee, queues, popped);
        heads := popped;
      }
      queues := Advance(queues, key);
      RootLeads(heads, txs, bondDenom, baseFee, queues);
      return |heads| != 0;
    }
  }

  /** The buckets already visited have lost their first tx, and the empty ones are gone. */
  ghost predicate HeadsCut(txs: map<SignerKey, seq<StoredTx>>, buckets: map<SignerKey, seq<StoredTx>>,
                           todo: set<SignerKey>) {
    && txs.Keys <= buckets.Keys
    && forall k | k in buckets ::
         if k in todo then k in txs && txs[k] == buckets[k]
         else if buckets[k] == [] then k !in txs
         else k in txs && txs[k] == buckets[k][1..]
  }

  lemma HeadsUncut(buckets: map<SignerKey, seq<StoredTx>>)
    ensures HeadsCut(buckets, buckets, buckets.Keys)
  {
  }

  lemma HeadsCutOneMore(txs: map<SignerKey, seq<StoredTx>>, buckets: map<SignerKey, seq<StoredTx>>,
                        todo: set<SignerKey>,
                        k: SignerKey, txs': map<SignerKey, seq<StoredTx>>)
    requires HeadsCut(txs, buckets, todo + {k}) && k in buckets && k !in todo
    requires txs' == if buckets[k] == [] then txs - {k} else txs[k := buckets[k][1..]]
    ensures HeadsCut(txs', buckets, todo)
  {
  }

  /** The loop of NewCosmosTransactionsByPriceAndNonce: one head per non-empty bucket, in any map order. */
  method CollectHeads(buckets: map<SignerKey, seq<StoredTx>>, denom: string, baseFee: Option<nat>)
    returns (heads: seq<Head>, txs: map<SignerKey, seq<StoredTx>>)
    ensures Collected(multiset(heads), KeyOf, QueuesOf(buckets, denom, baseFee), {})
    ensures HeadsCut(txs, buckets, {})
  {
    hide HeadsCut, EffectiveTip;
    heads, txs := [], buckets;
    HeadsUncut(buckets);
    ghost var q := QueuesOf(buckets, denom, baseFee);
    var todo := buckets.Keys;
    while todo != {}
      invariant todo <= buckets.Keys
      invariant HeadsCut(txs, buckets, todo)
      invariant Collected(multiset(heads), KeyOf, q, todo)
      decreases |todo|
    {
      var k := AnyOf(todo);
      assert (todo - {k}) + {k} == todo;
      todo := todo - {k};
      if |buckets[k]| == 0 {
        HeadsCutOneMore(txs, buckets, todo, k, txs - {k});
        txs := txs - {k};
      } else {
        var tip := ExtractEffectiveTip(buckets[k][0].tx, denom, baseFee);
        assert Head(buckets[k][0], k, tip) == q[k][0];
        CollectedOneMore(multiset(heads), KeyOf, q, todo, k);
        HeadsCutOneMore(txs, buckets, todo, k, txs[k := buckets[k][1..]]);
        heads := heads + [Head(buckets[k][0], k, tip)];
        txs := txs[k := buckets[k][1..]];
      }
    }
  }

  lemma CollectedHolds(heads: seq<Head>, txs: map<SignerKey, seq<StoredTx>>, buckets: map<SignerKey, seq<StoredTx>>,
                       denom: string, baseFee: Option<nat>)
    requires Heap.IsHeap(Less, heads)
    requires Collected(multiset(heads), KeyOf, QueuesOf(buckets, denom, baseFee), {})
    requires HeadsCut(txs, buckets, {})
    ensures Holds(heads, txs, denom, baseFee, QueuesOf(buckets, denom, baseFee))
  {
    hide HeadsCut, AllHeads;
    var q := QueuesOf(buckets, denom, baseFee);
    forall k | k in q
      ensures q[k] == [q[k][0]] + At(AllHeads(txs, denom, baseFee), k)
    {
      QueueSplit(txs, buckets, denom, baseFee, k);
    }
  }

  lemma QueueSplit(txs: map<SignerKey, seq<StoredTx>>, buckets: map<SignerKey, seq<StoredTx>>, denom: string,
                   baseFee: Option<nat>, k: SignerKey)
    requires HeadsCut(txs, buckets, {}) && k in buckets && buckets[k] != []
    ensures AsHeads(buckets[k], k, denom, baseFee)
            == [AsHeads(buckets[k], k, denom, baseFee)[0]] + At(AllHeads(txs, denom, baseFee), k)
  {
  }

  /** NewCosmosTransactionsByPriceAndNonce: no iterator when there is nothing to yield. */
  method NewIterator(buckets: map<SignerKey, seq<StoredTx>>, denom: string, baseFee: Option<nat>)
    returns (it: Iterator?)
    ensures it == null <==> QueuesOf(buckets, denom, baseFee) == map[]
    ensures it != null ==> fresh(it) && it.Valid() && it.queues == QueuesOf(buckets, denom, baseFee)
  {
    hide Heap.IsOrder, TotalOnKeys, Holds, QueuesOf;
    LessIsTotalOnKeys();
    var heads, txs := CollectHeads(buckets, denom, baseFee);
    heads := Heap.Init(Less, heads);
    CollectedHolds(heads, txs, buckets, denom, baseFee);
    RootLeads(heads, txs, denom, baseFee, QueuesOf(buckets, denom, baseFee));
    if |heads| == 0 {
      return null;
    }
    it := new Iterator(txs, heads, denom, baseFee, QueuesOf(buckets, denom, baseFee));
  }

  function TxsOf(ms: seq<Move<SignerKey, Head>>): (txs: seq<CosmosTx>)
    requires forall i :: 0 <= i < |ms| ==> ms[i].Take?
    ensures |txs| == |ms|
    ensures forall i :: 0 <= i < |ms| ==> txs[i] == ms[i].entry.tx.tx
  {
    seq(|ms|, i requires 0 <= i < |ms| => ms[i].entry.tx.tx)
  }

  /**
   * tx is the first tx of bucket key that was not yielded before, and of the first such txs of all
   * buckets none has a higher tip, and among those of equal tip key is the least.
   */
  ghost predicate IsNext(buckets: map<SignerKey, seq<StoredTx>>, denom: string, baseFee: Option<nat>,
                         before: seq<SignerKey>, key: SignerKey, tx: CosmosTx) {
    && key in buckets && Times(before, key) < |buckets[key]| && tx == buckets[key][Times(before, key)].tx
    && forall k | k in buckets && Times(before, k) < |buckets[k]| ::
         var tip, other := EffectiveTip(tx, denom, baseFee),
                           EffectiveTip(buckets[k][Times(before, k)].tx, denom, baseFee);
         tip > other || (tip == other && (key == k || LexLess(key, k)))
  }

  /** The txs come out dearest first, each from the bucket that keys names, until every bucket is used up. */
  ghost predicate DearestFirst(buckets: map<SignerKey, seq<StoredTx>>, denom: string, baseFee: Option<nat>,
                               keys: seq<SignerKey>, txs: seq<CosmosTx>) {
    && |keys| == |txs|
    && (forall n :: 0 <= n < |txs| ==> IsNext(buckets, denom, baseFee, keys[..n], keys[n], txs[n]))
    && (forall k | k in buckets :: Times(keys, k) == |buckets[k]|)
  }

  lemma DrainIsDearestFirst(buckets: map<SignerKey, seq<StoredTx>>, denom: string, baseFee: Option<nat>,
                            ms: seq<Move<SignerKey, Head>>)
    requires Drains(Less, QueuesOf(buckets, denom, baseFee), ms)
    ensures DearestFirst(buckets, denom, baseFee, KeysOf(ms), TxsOf(ms))
  {
    hide Run, Times, IsNext, EffectiveTip, QueuesOf;
    var q := QueuesOf(buckets, denom, baseFee);
    forall n | 0 <= n < |ms| ensures IsNext(buckets, denom, baseFee, KeysOf(ms)[..n], KeysOf(ms)[n], TxsOf(ms)[n]) {
      DrainStep(buckets, denom, baseFee, ms, n);
    }
    forall k | k in buckets ensures Times(KeysOf(ms), k) == |buckets[k]| {
      AllNamed(Less, q, ms, k);
      QueueAt(buckets, denom, baseFee, k);
    }
  }

  lemma QueueAt(buckets: map<SignerKey, seq<StoredTx>>, denom: string, baseFee: Option<nat>, k: SignerKey)
    ensures At(QueuesOf(buckets, denom, baseFee), k)
            == if k in buckets then AsHeads(buckets[k], k, denom, baseFee) else []
  {
  }

  lemma DrainStep(buckets: map<SignerKey, seq<StoredTx>>, denom: string, baseFee: Option<nat>,
                  ms: seq<Move<SignerKey, Head>>, n: nat)
    requires Drains(Less, QueuesOf(buckets, denom, baseFee), ms) && n < |ms|
    ensures IsNext(buckets, denom, baseFee, KeysOf(ms)[..n], ms[n].key, ms[n].entry.tx.tx)
  {
    hide Run, Times, EffectiveTip, QueuesOf, LexLess, StoredLess;
    var q, before, key := QueuesOf(buckets, denom, baseFee), KeysOf(ms)[..n], ms[n].key;
    BestOfRemaining(Less, q, ms, n, key);
    QueueAt(buckets, denom, baseFee, key);
    forall k | k in buckets && Times(before, k) < |buckets[k]|
      ensures var tip, other := EffectiveTip(ms[n].entry.tx.tx, denom, baseFee),
                                EffectiveTip(buckets[k][Times(before, k)].tx, denom, baseFee);
              tip > other || (tip == other && (key == k || LexLess(key, k)))
    {
      BestOfRemaining(Less, q, ms, n, k);
      QueueAt(buckets, denom, baseFee, k);
      assert k in q && q[k][Times(before, k)].signerKey == k;
      LexTrichotomy(key, k);
    }
  }

  /** Any walk over the same buckets yields the same txs, each bucket whole and in order. */
  lemma WalksAgree(buckets: map<SignerKey, seq<StoredTx>>, denom: string, baseFee: Option<nat>,
                   a: seq<Move<SignerKey, Head>>, b: seq<Move<SignerKey, Head>>, k: SignerKey)
    requires Drains(Less, QueuesOf(buckets, denom, baseFee), a)
    requires Drains(Less, QueuesOf(buckets, denom, baseFee), b)
    ensures a == b
    ensures TakenOf(a, k) == if k in buckets then AsHeads(buckets[k], k, denom, baseFee) else []
  {
    LessIsTotalOnKeys();
    DrainIsUnique(Less, KeyOf, QueuesOf(buckets, denom, baseFee), a, b);
    DrainTakesAll(Less, QueuesOf(buckets, denom, baseFee), a, k);
  }

  /**
   * Walking the iterator to its end yields the dearest first tx of a bucket each time, ties by signer key,
   * and no other order does.
   */
  method Collect(buckets: map<SignerKey, seq<StoredTx>>, denom: string, baseFee: Option<nat>)
    returns (txs: seq<CosmosTx>, ghost ms: seq<Move<SignerKey, Head>>)
    ensures DearestFirst(buckets, denom, baseFee, KeysOf(ms), txs)
    ensures Drains(Less, QueuesOf(buckets, denom, baseFee), ms)
    ensures txs == TxsOf(ms)
    ensures forall other | Drains(Less, QueuesOf(buckets, denom, baseFee), other) :: txs == TxsOf(other)
  {
    hide Holds, QueuesOf, Run, Fire, Best, DearestFirst;
    txs, ms := [], [];
    var it := NewIterator(buckets, denom, baseFee);
    ghost var q := QueuesOf(buckets, denom, baseFee);
    RunNothing(Less, q);
    while it != null
      invariant forall i :: 0 <= i < |ms| ==> ms[i].Take?
      invariant txs == TxsOf(ms)
      invariant it != null ==> fresh(it) && it.Valid() && it.queues != map[] && Run(Less, q, ms) == Some(it.queues)
      invariant it == null ==> Run(Less, q, ms) == Some(map[])
      decreases if it == null then 0 else 1 + Total(it.queues)
    {
      var tx := it.Tx();
      txs := txs + [tx.value];
      ghost var m := Take(it.heads[0].signerKey, it.heads[0]);
      RunOneMore(Less, q, ms, m);
      ms := ms + [m];
      ghost var before := it.queues;
      var more := it.Next();
      FireShrinks(Less, before, m);
      if !more {
        it := null;
      }
    }
    DrainIsDearestFirst(buckets, denom, baseFee, ms);
    forall other | Drains(Less, q, other) ensures txs == TxsOf(other) {
      WalksAgree(buckets, denom, baseFee, ms, other, "");
    }
  }
}
