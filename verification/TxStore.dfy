/** The store of rechecked Cosmos txs, bucketed by signer set (mempool/tx_store.go). */
module TxStore {
  import opened Common
  import opened CosmosTypes
  import opened Numerals
  import opened SignerKeys

  const UNKEYED: string := "unkeyed"

  /** cosmosTxBucket. */
  datatype Bucket = Bucket(txs: seq<StoredTx>, signers: set<Account>)

  type Buckets = map<string, Bucket>

  // --- From a tx to its stored form ---

  /**
   * cosmosTxNonceMap: None when the signers or one of their nonces cannot be had; a repeated account
   * keeps its last nonce.
   */
  function NonceMap(signers: seq<Signer>): (r: Option<map<Account, nat>>)
    ensures r.Some? && signers != [] ==> r.value != map[]
  {
    if signers == [] then Some(map[])
    else
      var last := signers[|signers| - 1];
      var before := NonceMap(signers[..|signers| - 1]);
      if before.None? || last.nonce.None? then None
      else
        var nonces := before.value[last.account := last.nonce.value];
        assert last.account in nonces;
        Some(nonces)
  }

  lemma {:induction false} NonceMapNeedsAll(signers: seq<Signer>)
    ensures NonceMap(signers).Some? <==> forall i :: 0 <= i < |signers| ==> signers[i].nonce.Some?
  {
    if signers != [] {
      var front := signers[..|signers| - 1];
      NonceMapNeedsAll(front);
      assert forall i :: 0 <= i < |front| ==> front[i] == signers[i];
    }
  }

  /** It needs every nonce, and then tells for each account the nonce of the last place it signs at. */
  lemma {:induction false} NonceMapIs(signers: seq<Signer>, a: Account)
    ensures NonceMap(signers).Some? <==> forall i :: 0 <= i < |signers| ==> signers[i].nonce.Some?
    ensures NonceMap(signers).Some? ==>
              if a in NonceMap(signers).value then LastNonce(signers, a, NonceMap(signers).value[a])
              else forall i :: 0 <= i < |signers| ==> signers[i].account != a
  {
    NonceMapNeedsAll(signers);
    if signers != [] && NonceMap(signers).Some? {
      var n := |signers| - 1;
      var front, last := signers[..n], signers[n];
      NonceMapIs(front, a);
      assert forall i :: 0 <= i < n ==> front[i] == signers[i];
      if last.account != a && a in NonceMap(front).value {
        var i :| 0 <= i < n && front[i].account == a && front[i].nonce == Some(NonceMap(front).value[a])
                 && forall j :: i < j < n ==> front[j].account != a;
        assert signers[i].account == a && forall j :: i < j < |signers| ==> signers[j].account != a;
      }
    }
  }

  /** The account signs last at this nonce. */
  ghost predicate LastNonce(signers: seq<Signer>, a: Account, nonce: nat) {
    exists i :: 0 <= i < |signers| && signers[i].account == a && signers[i].nonce == Some(nonce)
                && forall j :: i < j < |signers| ==> signers[j].account != a
  }

  function NoncesOf(tx: CosmosTx): (r: map<Account, nat>) {
    if tx.signers.None? || tx.signers.value == [] || NonceMap(tx.signers.value).None? then map[]
    else NonceMap(tx.signers.value).value
  }

  function Sum(keys: seq<Account>, nonces: map<Account, nat>): nat
    requires forall i :: 0 <= i < |keys| ==> keys[i] in nonces
  {
    if keys == [] then 0 else Sum(keys[..|keys| - 1], nonces) + nonces[keys[|keys| - 1]]
  }

  /** The true sum of the nonces. */
  function NonceSum(nonces: map<Account, nat>): nat { Sum(SortedKeys(nonces.Keys), nonces) }

  /** newCosmosTxWithMetadata; the stored sum is a uint64. */
  function Stored(tx: CosmosTx): (t: StoredTx) {
    var nonces := NoncesOf(tx);
    if nonces == map[] then StoredTx(tx, map[], 0, "", "")
    else StoredTx(tx, nonces, NonceSum(nonces) % UINT64_LIMIT, SignerSetKey(nonces.Keys), TxKey(nonces))
  }

  /**
   * A tx's signers are of one length and its nonces uint64s. Only a lone signer whose very bytes
   * spell the name of the shared bucket is out.
   */
  ghost predicate Regular(tx: CosmosTx, len: nat) {
    Sized(NoncesOf(tx).Keys, len) && NoncesOf(tx).Keys != {UNKEYED} && Uint64s(NoncesOf(tx))
  }

  // --- What the store keeps ---

  /** A member of the bucket `key`: keyed by its own nonces, or numbered below `next` in the unkeyed bucket. */
  ghost predicate Member(t: StoredTx, key: string, signers: set<Account>, len: nat, next: nat) {
    && t.nonceMap.Keys == signers && Sized(signers, len) && signers != {UNKEYED} && Uint64s(t.nonceMap)
    && (t.nonceMap == map[] ==>
          key == UNKEYED && t.nonceSum == 0 && exists n :: 0 <= n < next && t.txKey == "unkeyed/" + Decimal(n))
    && (t.nonceMap != map[] ==>
          && key == SignerSetKey(signers) && t.txKey == TxKey(t.nonceMap)
          && t.nonceSum == NonceSum(t.nonceMap) % UINT64_LIMIT)
  }

  ghost predicate Sorted(txs: seq<StoredTx>) {
    forall i, j :: 0 <= i < j < |txs| ==> StoredLess(txs[i], txs[j])
  }

  ghost predicate UniqueKeys(txs: seq<StoredTx>) {
    forall i, j :: 0 <= i < j < |txs| ==> txs[i].txKey != txs[j].txKey
  }

  ghost predicate BucketInv(b: Bucket, key: string, len: nat, next: nat) {
    && b.txs != [] && Sorted(b.txs) && UniqueKeys(b.txs)
    && forall i :: 0 <= i < |b.txs| ==> Member(b.txs[i], key, b.signers, len, next)
  }

  /** Each bucket is strictly sorted, has unique keys, and its signer set is every member's. */
  ghost predicate StoreInv(buckets: Buckets, len: nat, next: nat) {
    forall k | k in buckets :: BucketInv(buckets[k], k, len, next)
  }

  // --- Sorting ---

  /** s with t in its sorted place. */
  function InsertSorted(s: seq<StoredTx>, t: StoredTx): (r: seq<StoredTx>)
    ensures multiset(r) == multiset(s) + multiset{t}
  {
    if s == [] then [t]
    else
      var n := |s| - 1;
      assert s == s[..n] + [s[n]];
      if StoredLess(t, s[n]) then InsertSorted(s[..n], t) + [s[n]] else s + [t]
  }

  ghost predicate Fresh(s: seq<StoredTx>, t: StoredTx) {
    forall i :: 0 <= i < |s| ==> s[i].txKey != t.txKey
  }

  lemma {:induction false} InsertSortedMembers(s: seq<StoredTx>, t: StoredTx)
    ensures |InsertSorted(s, t)| == |s| + 1
    ensures forall x :: x in InsertSorted(s, t) <==> x in s || x == t
  {
    assert |multiset(InsertSorted(s, t))| == |s| + 1;
    forall x ensures x in InsertSorted(s, t) <==> x in s || x == t {
      assert x in InsertSorted(s, t) <==> x in multiset(InsertSorted(s, t));
    }
  }

  lemma AppendKeepsSorted(s: seq<StoredTx>, x: StoredTx)
    requires Sorted(s) && UniqueKeys(s)
    requires forall y | y in s :: StoredLess(y, x) && y.txKey != x.txKey
    ensures Sorted(s + [x]) && UniqueKeys(s + [x])
  {
    assert forall i :: 0 <= i < |s| ==> s[i] in s;
  }

  /** Inserting a new key keeps the list sorted with unique keys. */
  lemma {:induction false} InsertKeepsSorted(s: seq<StoredTx>, t: StoredTx)
    requires Sorted(s) && UniqueKeys(s) && Fresh(s, t)
    ensures Sorted(InsertSorted(s, t)) && UniqueKeys(InsertSorted(s, t))
  {
    hide StoredLess;
    if s != [] {
      var n := |s| - 1;
      StoredLessTrichotomy(t, s[n]);
      if StoredLess(t, s[n]) {
        InsertKeepsSorted(s[..n], t);
        InsertSortedMembers(s[..n], t);
        forall y | y in InsertSorted(s[..n], t) ensures StoredLess(y, s[n]) && y.txKey != s[n].txKey {
          if y in s[..n] { var i :| 0 <= i < n && s[i] == y; }
        }
        AppendKeepsSorted(InsertSorted(s[..n], t), s[n]);
      } else {
        forall y | y in s ensures StoredLess(y, t) && y.txKey != t.txKey {
          var i :| 0 <= i < |s| && s[i] == y;
          if i < n { StoredLessTransitive(s[i], s[n], t); }
        }
        AppendKeepsSorted(s, t);
      }
    }
  }

  /** Sorted arrangements of the same txs end with the same tx. */
  lemma SameLast(a: seq<StoredTx>, b: seq<StoredTx>)
    requires Sorted(a) && Sorted(b) && multiset(a) == multiset(b) && a != [] && b != []
    ensures a[|a| - 1] == b[|b| - 1]
  {
    hide StoredLess;
    var x, y := a[|a| - 1], b[|b| - 1];
    assert x in multiset(b) && y in multiset(a);
    assert x in b && y in a;
    StoredLessTrichotomy(x, y);
  }

  /** Whatever algorithm sorts the bucket, there is only one sorted arrangement. */
  lemma {:induction false} SortedIsUnique(a: seq<StoredTx>, b: seq<StoredTx>)
    requires Sorted(a) && Sorted(b) && multiset(a) == multiset(b)
    ensures a == b
  {
    hide Sorted;
    assert |multiset(a)| == |multiset(b)|;
    if a != [] {
      var n := |a| - 1;
      SameLast(a, b);
      WithoutLast(a);
      WithoutLast(b);
      SortedIsUnique(a[..n], b[..n]);
    }
  }

  lemma WithoutLast(a: seq<StoredTx>)
    requires a != [] && Sorted(a)
    ensures a == a[..|a| - 1] + [a[|a| - 1]] && Sorted(a[..|a| - 1])
    ensures multiset(a[..|a| - 1]) == multiset(a) - multiset{a[|a| - 1]}
  {
    assert a == a[..|a| - 1] + [a[|a| - 1]];
  }

  // --- Adding ---

  /** The form under which AddTx stores tx: without keys it gets the shared bucket and a number. */
  function Placed(tx: CosmosTx, next: nat): StoredTx {
    var t := Stored(tx);
    t.(signerKey := if t.signerKey == "" then UNKEYED else t.signerKey,
       txKey := if t.txKey == "" then "unkeyed/" + Decimal(next) else t.txKey)
  }

  function BucketAt(buckets: Buckets, key: string, nonces: map<Account, nat>): Bucket {
    if key in buckets then buckets[key] else Bucket([], nonces.Keys)
  }

  /** The buckets after AddTx. */
  function Added(buckets: Buckets, tx: CosmosTx, next: nat): Buckets {
    var t := Placed(tx, next);
    var b := BucketAt(buckets, t.signerKey, t.nonceMap);
    if exists i :: 0 <= i < |b.txs| && b.txs[i].txKey == t.txKey then buckets
    else buckets[t.signerKey := Bucket(InsertSorted(b.txs, t), b.signers)]
  }

  /** The key of several signers has a separator, and that of a single signer is the signer. */
  lemma SetKeyIsNotUnkeyed(signers: set<Account>, len: nat)
    requires Sized(signers, len) && signers != {UNKEYED}
    ensures signers != {} ==> SignerSetKey(signers) != UNKEYED && SignerSetKey(signers) != ""
  {
    if signers != {} {
      var keys := SortedKeys(signers);
      assert forall i :: 0 <= i < |keys| ==> keys[i] in keys;
      JoinLength(keys, len);
      if |keys| == 1 {
        assert signers == {keys[0]};
      } else {
        assert Join(keys)[len] == '|';
        assert '|' !in UNKEYED;
      }
    }
  }

  /** Such a lone signer would share the bucket of the unkeyed txs. */
  lemma SignerNamedUnkeyed()
    ensures SignerSetKey({UNKEYED}) == UNKEYED
  {
    var keys := SortedKeys({UNKEYED});
    assert |keys| == 1 && keys[0] in keys;
  }

  /** A regular tx with signers never has an empty key, nor the unkeyed bucket's. */
  lemma KeysApart(tx: CosmosTx, len: nat)
    requires Regular(tx, len) && NoncesOf(tx) != map[]
    ensures Stored(tx).signerKey != "" && Stored(tx).signerKey != UNKEYED && Stored(tx).txKey != ""
  {
    var nonces := NoncesOf(tx);
    var keys := SortedKeys(nonces.Keys);
    assert keys != [] by { var k :| k in nonces; assert k in keys; }
    SetKeyIsNotUnkeyed(nonces.Keys, len);
    EntriesSized(nonces, keys, len);
    JoinLength(Entries(nonces, keys), len + 21);
  }

  lemma PlacedIsMember(tx: CosmosTx, len: nat, next: nat)
    requires Regular(tx, len)
    ensures var t := Placed(tx, next); Member(t, t.signerKey, t.nonceMap.Keys, len, next + 1) && t.tx == tx
  {
    if NoncesOf(tx) != map[] {
      KeysApart(tx, len);
    } else {
      assert Placed(tx, next).txKey == "unkeyed/" + Decimal(next);
    }
  }

  /** A stored bucket that tx's key selects has tx's own signers. */
  lemma SameSigners(buckets: Buckets, tx: CosmosTx, len: nat, next: nat)
    requires StoreInv(buckets, len, next) && Regular(tx, len) && Placed(tx, next).signerKey in buckets
    ensures buckets[Placed(tx, next).signerKey].signers == Placed(tx, next).nonceMap.Keys
  {
    var t := Placed(tx, next);
    var b := buckets[t.signerKey];
    var m := b.txs[0];
    assert Member(m, t.signerKey, b.signers, len, next);
    if NoncesOf(tx) != map[] {
      KeysApart(tx, len);
      SignerSetKeyInjective(b.signers, t.nonceMap.Keys, len);
    } else {
      SetKeyIsNotUnkeyed(b.signers, len);
    }
  }

  lemma MembersLast(b: Bucket, key: string, len: nat, next: nat)
    requires BucketInv(b, key, len, next)
    ensures BucketInv(b, key, len, next + 1)
  {
    forall i | 0 <= i < |b.txs| ensures Member(b.txs[i], key, b.signers, len, next + 1) {
      assert Member(b.txs[i], key, b.signers, len, next);
    }
  }

  /** AddTx keeps every bucket sorted, unique and of one signer set. */
  lemma AddKeepsInv(buckets: Buckets, tx: CosmosTx, len: nat, next: nat)
    requires StoreInv(buckets, len, next) && Regular(tx, len)
    ensures StoreInv(Added(buckets, tx, next), len, next + 1)
  {
    hide BucketInv, Member, Stored, InsertSorted, Placed;
    var t := Placed(tx, next);
    var b := BucketAt(buckets, t.signerKey, t.nonceMap);
    PlacedIsMember(tx, len, next);
    if t.signerKey in buckets { SameSigners(buckets, tx, len, next); MembersLast(b, t.signerKey, len, next); }
    forall k | k in buckets ensures BucketInv(buckets[k], k, len, next + 1) { MembersLast(buckets[k], k, len, next); }
    if Fresh(b.txs, t) {
      GrownBucket(b, t, t.signerKey, len, next + 1);
    }
  }

  ghost predicate Holds(buckets: Buckets, t: StoredTx) {
    exists k :: k in buckets && t in buckets[k].txs
  }

  ghost predicate SameNonces(t: StoredTx, nonces: map<Account, nat>) { t.nonceMap == nonces }

  /** A tx is a duplicate when a stored tx has the same signers at the same nonces; unkeyed txs never are. */
  ghost predicate IsDuplicate(buckets: Buckets, tx: CosmosTx) {
    NoncesOf(tx) != map[] && exists t :: Holds(buckets, t) && SameNonces(t, NoncesOf(tx))
  }

  /** The scan of the tx's own bucket by key finds exactly the duplicates. */
  lemma KeyScanFindsDuplicates(buckets: Buckets, tx: CosmosTx, len: nat, next: nat)
    requires StoreInv(buckets, len, next) && Regular(tx, len)
    ensures var t := Placed(tx, next);
            Fresh(BucketAt(buckets, t.signerKey, t.nonceMap).txs, t) <==> !IsDuplicate(buckets, tx)
  {
    hide SignerSetKey, TxKey, NonceSum, Sorted, UniqueKeys, Sized, Uint64s;
    var t := Placed(tx, next);
    var b := BucketAt(buckets, t.signerKey, t.nonceMap);
    PlacedIsMember(tx, len, next);
    if NoncesOf(tx) != map[] { KeysApart(tx, len); }
    if !Fresh(b.txs, t) {
      SameSigners(buckets, tx, len, next);
      MembersLast(b, t.signerKey, len, next);
      var i :| 0 <= i < |b.txs| && b.txs[i].txKey == t.txKey;
      assert Member(b.txs[i], t.signerKey, b.signers, len, next);
      SameKeySameNonces(b.txs[i], t, t.signerKey, b.signers, len, next);
      assert Holds(buckets, b.txs[i]) && SameNonces(b.txs[i], NoncesOf(tx));
    }
    if IsDuplicate(buckets, tx) {
      var u :| Holds(buckets, u) && SameNonces(u, NoncesOf(tx));
      var k :| k in buckets && u in buckets[k].txs;
      var i :| 0 <= i < |buckets[k].txs| && buckets[k].txs[i] == u;
      assert Member(u, k, buckets[k].signers, len, next);
    }
  }

  /** Equal keys of a member and of the next tx to be placed mean equal nonces, and no unkeyed number comes twice. */
  lemma SameKeySameNonces(u: StoredTx, t: StoredTx, key: string, signers: set<Account>, len: nat, next: nat)
    requires Member(u, key, signers, len, next) && Member(t, key, signers, len, next + 1) && u.txKey == t.txKey
    ensures u.nonceMap == t.nonceMap
    ensures t.nonceMap == map[] ==> t.txKey != "unkeyed/" + Decimal(next)
  {
    if u.nonceMap == map[] {
      assert u.nonceMap.Keys == {} == t.nonceMap.Keys;
      var n :| 0 <= n < next && u.txKey == "unkeyed/" + Decimal(n);
      if u.txKey == "unkeyed/" + Decimal(next) {
        assert Decimal(n) == ("unkeyed/" + Decimal(n))[8..] == Decimal(next);
        DecimalInjective(n, next);
      }
    } else {
      TxKeyInjective(u.nonceMap, t.nonceMap, len);
    }
  }

  /** AddTx adds exactly the tx, unless it is a duplicate, and loses nothing. */
  lemma AddedExactly(buckets: Buckets, tx: CosmosTx, len: nat, next: nat, s: StoredTx)
    requires StoreInv(buckets, len, next) && Regular(tx, len)
    ensures Holds(Added(buckets, tx, next), s) <==>
            Holds(buckets, s) || (!IsDuplicate(buckets, tx) && s == Placed(tx, next))
  {
    hide StoreInv, Placed, InsertSorted, IsDuplicate;
    KeyScanFindsDuplicates(buckets, tx, len, next);
    var t := Placed(tx, next);
    var b := BucketAt(buckets, t.signerKey, t.nonceMap);
    InsertSortedMembers(b.txs, t);
    var after := Added(buckets, tx, next);
    if Fresh(b.txs, t) {
      assert after[t.signerKey].txs == InsertSorted(b.txs, t);
      if Holds(buckets, s) {
        var k :| k in buckets && s in buckets[k].txs;
        assert k in after && s in after[k].txs;
      }
    }
  }

  /** A bucket, or a new one, with one more member of its own. */
  lemma GrownBucket(b: Bucket, t: StoredTx, key: string, len: nat, next: nat)
    requires b.txs == [] || BucketInv(b, key, len, next)
    requires Fresh(b.txs, t) && Member(t, key, b.signers, len, next)
    ensures BucketInv(Bucket(InsertSorted(b.txs, t), b.signers), key, len, next)
  {
    hide Member, StoredLess, InsertSorted;
    InsertKeepsSorted(b.txs, t);
    InsertSortedMembers(b.txs, t);
    var r := InsertSorted(b.txs, t);
    forall i | 0 <= i < |r| ensures Member(r[i], key, b.signers, len, next) { assert r[i] in r; }
  }

  // --- Invalidating ---

  /** invalidatesCosmosTx: a shared signer at or above the threshold. */
  predicate Invalidates(t: StoredTx, thresholds: map<Account, nat>) {
    exists a | a in thresholds :: a in t.nonceMap && t.nonceMap[a] >= thresholds[a]
  }

  /** The txs of the list that survive, in order. */
  function Survivors(txs: seq<StoredTx>, thresholds: map<Account, nat>): (r: seq<StoredTx>)
    ensures |r| <= |txs|
  {
    if txs == [] then []
    else
      var n := |txs| - 1;
      Survivors(txs[..n], thresholds) + if Invalidates(txs[n], thresholds) then [] else [txs[n]]
  }

  /** A brute-force scan of all buckets: survivors stay, empty buckets go. */
  function Scanned(buckets: Buckets, thresholds: map<Account, nat>): Buckets {
    map k | k in buckets && Survivors(buckets[k].txs, thresholds) != [] ::
      Bucket(Survivors(buckets[k].txs, thresholds), buckets[k].signers)
  }

  /** How many txs of the given buckets a brute-force scan removes. */
  ghost function Casualties(buckets: Buckets, keys: set<string>, thresholds: map<Account, nat>): nat
    requires keys <= buckets.Keys
  {
    if keys == {} then 0
    else
      var k :| k in keys;
      |buckets[k].txs| - |Survivors(buckets[k].txs, thresholds)| + Casualties(buckets, keys - {k}, thresholds)
  }

  lemma {:induction false} CasualtiesWithout(buckets: Buckets, keys: set<string>, thresholds: map<Account, nat>,
                                             k: string)
    requires keys <= buckets.Keys && k in keys
    ensures Casualties(buckets, keys, thresholds)
            == |buckets[k].txs| - |Survivors(buckets[k].txs, thresholds)| + Casualties(buckets, keys - {k}, thresholds)
    decreases |keys|
  {
    var j :| j in keys && Casualties(buckets, keys, thresholds)
                          == |buckets[j].txs| - |Survivors(buckets[j].txs, thresholds)| +
                            Casualties(buckets, keys - {j}, thresholds);
    if j != k {
      CasualtiesWithout(buckets, keys - {j}, thresholds, k);
      CasualtiesWithout(buckets, keys - {k}, thresholds, j);
      assert keys - {j} - {k} == keys - {k} - {j};
    }
  }

  /** The survivors are exactly the members that are not invalidated. */
  lemma {:induction false} SurvivorsIff(txs: seq<StoredTx>, thresholds: map<Account, nat>)
    ensures forall t :: t in Survivors(txs, thresholds) <==> t in txs && !Invalidates(t, thresholds)
    ensures forall t :: t in Survivors(txs, thresholds) <==>
              t in txs && forall a | a in t.nonceMap && a in thresholds :: t.nonceMap[a] < thresholds[a]
  {
    if txs != [] {
      SurvivorsIff(txs[..|txs| - 1], thresholds);
      assert txs == txs[..|txs| - 1] + [txs[|txs| - 1]];
    }
  }

  /** Every account that t shares with the nonces stands below them. */
  ghost predicate StaysBelow(t: StoredTx, nonces: map<Account, nat>) {
    forall a | a in t.nonceMap && a in nonces :: t.nonceMap[a] < nonces[a]
  }

  /** What a scan leaves: exactly the txs held before whose shared accounts all stand below the nonces. */
  lemma ScannedHolds(buckets: Buckets, nonces: map<Account, nat>, t: StoredTx)
    ensures Holds(Scanned(buckets, nonces), t) <==> Holds(buckets, t) && StaysBelow(t, nonces)
  {
    hide Survivors;
    var after := Scanned(buckets, nonces);
    forall k | k in buckets
      ensures t in Survivors(buckets[k].txs, nonces) <==> t in buckets[k].txs && StaysBelow(t, nonces)
    {
      SurvivorsIff(buckets[k].txs, nonces);
    }
    if Holds(buckets, t) && StaysBelow(t, nonces) {
      var k :| k in buckets && t in buckets[k].txs;
      assert k in after && t in after[k].txs;
    }
  }

  lemma ScannedHoldsAll(buckets: Buckets, nonces: map<Account, nat>)
    ensures forall t :: Holds(Scanned(buckets, nonces), t) <==>
              Holds(buckets, t) && forall a | a in t.nonceMap && a in nonces :: t.nonceMap[a] < nonces[a]
  {
    hide Scanned, Holds;
    forall t ensures Holds(Scanned(buckets, nonces), t) <==> Holds(buckets, t) && StaysBelow(t, nonces) {
      ScannedHolds(buckets, nonces, t);
    }
  }

  /** Some account that t shares with the nonces stands at or above them. */
  ghost predicate Reaches(t: StoredTx, nonces: map<Account, nat>) {
    exists a :: a in nonces && a in t.nonceMap && nonces[a] <= t.nonceMap[a]
  }

  /** The txs of the given buckets that reach the nonces. */
  ghost function Reaching(buckets: Buckets, keys: set<string>, nonces: map<Account, nat>): set<StoredTx> {
    set k, t | k in keys && k in buckets && t in buckets[k].txs && Reaches(t, nonces) :: t
  }

  ghost function ReachingIn(txs: seq<StoredTx>, nonces: map<Account, nat>): set<StoredTx> {
    set t | t in txs && Reaches(t, nonces)
  }

  lemma ReachingOneMore(txs: seq<StoredTx>, t: StoredTx, nonces: map<Account, nat>)
    requires t !in txs
    ensures |ReachingIn(txs + [t], nonces)| == |ReachingIn(txs, nonces)| + if Reaches(t, nonces) then 1 else 0
  {
    hide Reaches;
    if Reaches(t, nonces) {
      assert ReachingIn(txs + [t], nonces) == ReachingIn(txs, nonces) + {t};
    } else {
      assert ReachingIn(txs + [t], nonces) == ReachingIn(txs, nonces);
    }
  }

  lemma {:induction false} ReachingInBucket(txs: seq<StoredTx>, nonces: map<Account, nat>)
    requires UniqueKeys(txs)
    ensures |ReachingIn(txs, nonces)| == |txs| - |Survivors(txs, nonces)|
  {
    if txs != [] {
      hide ReachingIn;
      var n := |txs| - 1;
      ReachingInBucket(txs[..n], nonces);
      assert txs == txs[..n] + [txs[n]];
      ReachingOneMore(txs[..n], txs[n], nonces);
    } else {
      assert ReachingIn(txs, nonces) == {};
    }
  }

  /** No tx is in two buckets. */
  lemma BucketsApart(buckets: Buckets, len: nat, next: nat, j: string, k: string, t: StoredTx)
    requires StoreInv(buckets, len, next) && j in buckets && k in buckets
    requires t in buckets[j].txs && t in buckets[k].txs
    ensures j == k
  {
    hide SignerSetKey, TxKey, NonceSum, Sorted, UniqueKeys;
    assert Member(t, j, buckets[j].signers, len, next) && Member(t, k, buckets[k].signers, len, next);
  }

  lemma ReachingSplit(buckets: Buckets, keys: set<string>, nonces: map<Account, nat>, len: nat, next: nat, k: string)
    requires StoreInv(buckets, len, next) && keys <= buckets.Keys && k in keys
    ensures |Reaching(buckets, keys, nonces)|
            == |ReachingIn(buckets[k].txs, nonces)| + |Reaching(buckets, keys - {k}, nonces)|
  {
    hide StoreInv, Reaches;
    var all, own, rest := Reaching(buckets, keys, nonces), ReachingIn(buckets[k].txs, nonces),
                          Reaching(buckets, keys - {k}, nonces);
    assert all == own + rest;
    assert own !! rest by {
      forall t | t in own && t in rest ensures false {
        var j :| j in keys - {k} && t in buckets[j].txs;
        BucketsApart(buckets, len, next, j, k, t);
      }
    }
  }

  /** The count of a scan is the number of txs that reach its nonces. */
  lemma {:induction false} CasualtiesReach(buckets: Buckets, keys: set<string>, nonces: map<Account, nat>,
                                                  len: nat, next: nat)
    requires StoreInv(buckets, len, next) && keys <= buckets.Keys
    ensures Casualties(buckets, keys, nonces) == |Reaching(buckets, keys, nonces)|
    decreases |keys|
  {
    hide Reaching, ReachingIn, Survivors, Casualties, Member, Sorted;
    if keys == {} {
      NothingReaches(buckets, nonces);
    } else {
      var k :| k in keys;
      CasualtiesWithout(buckets, keys, nonces, k);
      CasualtiesReach(buckets, keys - {k}, nonces, len, next);
      ReachingSplit(buckets, keys, nonces, len, next, k);
      ReachingInBucket(buckets[k].txs, nonces);
    }
  }

  lemma NothingReaches(buckets: Buckets, nonces: map<Account, nat>)
    ensures Casualties(buckets, {}, nonces) == 0 && Reaching(buckets, {}, nonces) == {}
  {
  }

  /** A tx's own key is stored exactly when a tx of the same signers at the same nonces is. */
  lemma StoredIffDuplicate(buckets: Buckets, tx: CosmosTx, len: nat, next: nat)
    requires StoreInv(buckets, len, next) && Regular(tx, len)
    ensures IsStored(buckets, tx) <==> IsDuplicate(buckets, tx)
  {
    hide StoreInv, SignerSetKey, TxKey, NonceSum, Regular, IsDuplicate;
    KeyScanFindsDuplicates(buckets, tx, len, next);
    if NoncesOf(tx) != map[] {
      KeysApart(tx, len);
    } else {
      NoDuplicateUnkeyed(buckets, tx);
    }
  }

  lemma NoDuplicateUnkeyed(buckets: Buckets, tx: CosmosTx)
    requires NoncesOf(tx) == map[]
    ensures !IsDuplicate(buckets, tx)
  {
  }

  /** Survivors keep their order. */
  lemma {:induction false} SurvivorsSorted(txs: seq<StoredTx>, thresholds: map<Account, nat>)
    requires Sorted(txs) && UniqueKeys(txs)
    ensures Sorted(Survivors(txs, thresholds)) && UniqueKeys(Survivors(txs, thresholds))
  {
    if txs != [] {
      var n := |txs| - 1;
      SurvivorsSorted(txs[..n], thresholds);
      SurvivorsIff(txs[..n], thresholds);
      var r := Survivors(txs[..n], thresholds);
      forall i | 0 <= i < |r| ensures StoredLess(r[i], txs[n]) && r[i].txKey != txs[n].txKey {
        assert r[i] in r;
      }
    }
  }

  lemma ScanKeepsInv(buckets: Buckets, thresholds: map<Account, nat>, len: nat, next: nat)
    requires StoreInv(buckets, len, next)
    ensures StoreInv(Scanned(buckets, thresholds), len, next)
  {
    hide Member, Invalidates, StoredLess;
    forall k | k in Scanned(buckets, thresholds)
      ensures BucketInv(Scanned(buckets, thresholds)[k], k, len, next)
    {
      var txs := buckets[k].txs;
      SurvivorsSorted(txs, thresholds);
      SurvivorsIff(txs, thresholds);
      var r := Survivors(txs, thresholds);
      forall i | 0 <= i < |r| ensures Member(r[i], k, buckets[k].signers, len, next) { assert r[i] in r; }
    }
  }

  /** A bucket without any of the signers loses nothing, which is what the prefilter relies on. */
  lemma {:induction false} UntouchedBucket(txs: seq<StoredTx>, signers: set<Account>, thresholds: map<Account, nat>)
    requires forall i :: 0 <= i < |txs| ==> txs[i].nonceMap.Keys == signers
    requires signers !! thresholds.Keys
    ensures Survivors(txs, thresholds) == txs
  {
    if txs != [] {
      var n := |txs| - 1;
      UntouchedBucket(txs[..n], signers, thresholds);
      assert !Invalidates(txs[n], thresholds) by {
        assert txs[n].nonceMap.Keys == signers;
      }
    }
  }

  /** InvalidateFrom acts only when the tx's own key is stored. */
  ghost predicate IsStored(buckets: Buckets, tx: CosmosTx) {
    var t := Stored(tx);
    && t.nonceMap != map[] && t.signerKey != "" && t.txKey != "" && t.signerKey in buckets
    && exists i :: 0 <= i < |buckets[t.signerKey].txs| && buckets[t.signerKey].txs[i].txKey == t.txKey
  }

  /**
   * Of two different txs of a bucket, the one with pointwise-lower nonces comes first exactly when its
   * 64-bit nonce sum is not above the other's; so always when the higher sum does not wrap.
   */
  lemma LowerNoncesFirst(b: Bucket, key: string, len: nat, next: nat, i: nat, j: nat)
    requires BucketInv(b, key, len, next) && i < |b.txs| && j < |b.txs|
    requires forall a | a in b.signers :: b.txs[i].nonceMap[a] <= b.txs[j].nonceMap[a]
    requires b.txs[i].nonceMap != b.txs[j].nonceMap
    ensures i < j <==> NonceSum(b.txs[i].nonceMap) % UINT64_LIMIT <= NonceSum(b.txs[j].nonceMap) % UINT64_LIMIT
    ensures NonceSum(b.txs[j].nonceMap) < UINT64_LIMIT ==> i < j
  {
    hide StoredLess, SignerSetKey, TxKey, NonceSum, UniqueKeys, Sized, Uint64s;
    var s, t := b.txs[i], b.txs[j];
    assert Member(s, key, b.signers, len, next) && Member(t, key, b.signers, len, next);
    LowerSum(s.nonceMap, t.nonceMap);
    TxKeySorts(s.nonceMap, t.nonceMap, len);
    SumThenKey(s, t);
    StoredLessTrichotomy(s, t);
  }

  lemma SumThenKey(s: StoredTx, t: StoredTx)
    requires LexLess(s.txKey, t.txKey)
    ensures StoredLess(s, t) <==> s.nonceSum <= t.nonceSum
    ensures StoredLess(t, s) <==> s.nonceSum > t.nonceSum
  {
    LexTrichotomy(s.txKey, t.txKey);
  }

  /** Pointwise-lower nonces have the lower sum. */
  lemma LowerSum(m: map<Account, nat>, n: map<Account, nat>)
    requires m.Keys == n.Keys && m != n && forall a | a in m :: m[a] <= n[a]
    ensures NonceSum(m) < NonceSum(n)
  {
    var keys := SortedKeys(m.Keys);
    assert forall k :: 0 <= k < |keys| ==> keys[k] in keys;
    SomeNonceGrows(m, n, keys);
    SumGrows(keys, m, n);
  }

  /** A tx of two signers at the given nonces. */
  function TwoSigned(a: Account, x: nat, b: Account, y: nat): CosmosTx {
    CosmosTx(0, None, Some([Signer(a, x, Some(x)), Signer(b, y, Some(y))]))
  }

  lemma TwoSignedNonces(a: Account, x: nat, b: Account, y: nat)
    requires a != b
    ensures NoncesOf(TwoSigned(a, x, b, y)) == map[a := x, b := y]
  {
    var signers := TwoSigned(a, x, b, y).signers.value;
    var one := signers[..1];
    assert one == [signers[0]] && one[..0] == [];
    assert NonceMap(one) == Some(map[a := x]);
    assert b in map[a := x, b := y];
  }

  /** Once the 64-bit sum wraps, a pointwise-higher tx sorts first in their common bucket. */
  lemma WrappedSumReorders(a: Account, b: Account, len: nat)
    requires a != b && |a| == |b| == len > 0
    ensures var low, high := Stored(TwoSigned(a, UINT64_LIMIT - 1, b, 0)), Stored(TwoSigned(a, UINT64_LIMIT - 1, b, 1));
            && Member(low, SignerSetKey({a, b}), {a, b}, len, 0) && Member(high, SignerSetKey({a, b}), {a, b}, len, 0)
            && (forall x | x in {a, b} :: low.nonceMap[x] <= high.nonceMap[x])
            && StoredLess(high, low)
  {
    hide NonceSum, Sum, SortedKeys, NoncesOf, TxKey, SignerSetKey;
    TwoSignedNonces(a, UINT64_LIMIT - 1, b, 0);
    TwoSignedNonces(a, UINT64_LIMIT - 1, b, 1);
    var low, high := map[a := UINT64_LIMIT - 1, b := 0], map[a := UINT64_LIMIT - 1, b := 1];
    assert a in low && a in high && low.Keys == {a, b} && high.Keys == {a, b};
    PairSum(low, a, b);
    PairSum(high, a, b);
    assert {a, b} != {UNKEYED} by { assert a in {a, b} && b in {a, b}; }
  }

  lemma PairSum(nonces: map<Account, nat>, a: Account, b: Account)
    requires a != b && nonces.Keys == {a, b}
    ensures NonceSum(nonces) == nonces[a] + nonces[b]
  {
    hide Sum;
    var keys := SortedKeys(nonces.Keys);
    assert |keys| == 2 && keys[0] in keys && keys[1] in keys;
    assert keys[0] != keys[1] by { assert a in keys && b in keys; }
    SumOfTwo(keys, nonces);
  }

  lemma SumOfTwo(keys: seq<Account>, nonces: map<Account, nat>)
    requires |keys| == 2 && keys[0] in nonces && keys[1] in nonces
    ensures Sum(keys, nonces) == nonces[keys[0]] + nonces[keys[1]]
  {
    var one := keys[..1];
    assert one[..0] == [];
    assert Sum(one, nonces) == nonces[keys[0]];
  }

  lemma SomeNonceGrows(m: map<Account, nat>, n: map<Account, nat>, keys: seq<Account>)
    requires m.Keys == n.Keys && (forall k :: k in keys <==> k in m.Keys)
    requires m != n && forall a | a in m :: m[a] <= n[a]
    ensures exists i :: 0 <= i < |keys| && m[keys[i]] < n[keys[i]]
  {
    var a :| a in m && m[a] != n[a];
    assert a in keys;
    var i :| 0 <= i < |keys| && keys[i] == a;
  }

  lemma {:induction false} SumGrows(keys: seq<Account>, m: map<Account, nat>, n: map<Account, nat>)
    requires forall i :: 0 <= i < |keys| ==> keys[i] in m && keys[i] in n && m[keys[i]] <= n[keys[i]]
    ensures Sum(keys, m) <= Sum(keys, n)
    ensures (exists i :: 0 <= i < |keys| && m[keys[i]] < n[keys[i]]) ==> Sum(keys, m) < Sum(keys, n)
  {
    if keys != [] {
      var front := keys[..|keys| - 1];
      SumGrows(front, m, n);
      if i :| 0 <= i < |keys| && m[keys[i]] < n[keys[i]] {
        if i < |front| { assert m[front[i]] < n[front[i]]; }
      }
    }
  }

  // --- The store ---

  class CosmosTxStore {
    var txs: Buckets
    var nextUnkeyed: nat

    /** The length of the signers' addresses. */
    ghost const len: nat

    ghost predicate Valid()
      reads this
    {
      StoreInv(txs, len, nextUnkeyed)
    }

    ghost function Value(): Contents
      reads this
    {
      Contents(txs, nextUnkeyed)
    }

    constructor (ghost len: nat)
      ensures Valid() && txs == map[] && nextUnkeyed == 0 && this.len == len
    {
      txs, nextUnkeyed := map[], 0;
      this.len := len;
    }

    /** snapshotTxs: whatever order the map yields its keys in, the buckets come in the order of their keys. */
    method SnapshotTxs() returns (r: seq<CosmosTx>)
      ensures r == Snapshot(txs)
    {
      hide SortedKeys, TxsOf;
      var keys := SortKeys(txs.Keys);
      assert forall i :: 0 <= i < |keys| ==> keys[i] in keys;
      r := [];
      for i := 0 to |keys|
        invariant r == Flat(keys[..i], txs)
      {
        assert keys[..i + 1][..i] == keys[..i];
        r := r + TxsOf(txs[keys[i]].txs);
      }
      assert keys[..|keys|] == keys;
    }

    /** The duplicate scans of AddTx and containsCosmosTx. */
    method Contains(bucket: seq<StoredTx>, txKey: string) returns (found: bool)
      ensures found <==> exists i :: 0 <= i < |bucket| && bucket[i].txKey == txKey
    {
      for i := 0 to |bucket|
        invariant forall j :: 0 <= j < i ==> bucket[j].txKey != txKey
      {
        if bucket[i].txKey == txKey {
          return true;
        }
      }
      return false;
    }

    /** The beginning of AddTx: a tx without keys gets the shared bucket's and a number. */
    method KeyTx(tx: CosmosTx) returns (t: StoredTx)
      modifies this`nextUnkeyed
      ensures t == Placed(tx, old(nextUnkeyed)) && nextUnkeyed == NextUnkeyed(old(nextUnkeyed), tx)
    {
      hide Stored, Decimal;
      t := Stored(tx);
      if t.signerKey == "" {
        t := t.(signerKey := UNKEYED);
      }
      if t.txKey == "" {
        t := t.(txKey := "unkeyed/" + Decimal(nextUnkeyed));
        nextUnkeyed := (nextUnkeyed + 1) % UINT64_LIMIT;
      }
    }

    /** AddTx. A regular tx keeps the store in order, as long as the counter of unkeyed txs has not run out. */
    method AddTx(tx: CosmosTx)
      modifies this
      ensures txs == Added(old(txs), tx, old(nextUnkeyed)) && nextUnkeyed == NextUnkeyed(old(nextUnkeyed), tx)
      ensures old(Valid()) && Regular(tx, len) && old(nextUnkeyed) + 1 < UINT64_LIMIT ==> Valid()
    {
      hide StoreInv, Placed, NextUnkeyed, InsertSorted, Regular;
      if Valid() && Regular(tx, len) && nextUnkeyed + 1 < UINT64_LIMIT {
        AddKeepsInvExactly(txs, tx, len, nextUnkeyed);
      }
      var t := KeyTx(tx);
      var bucket := BucketAt(txs, t.signerKey, t.nonceMap);
      var duplicate := Contains(bucket.txs, t.txKey);
      if duplicate {
        return;
      }
      txs := txs[t.signerKey := Bucket(InsertSorted(bucket.txs, t), bucket.signers)];
    }

    /** The inner loop of InvalidateFrom: the txs of one bucket that survive. */
    method FilterBucket(bucket: seq<StoredTx>, thresholds: map<Account, nat>)
      returns (kept: seq<StoredTx>, removed: nat)
      ensures kept == Survivors(bucket, thresholds) && removed == |bucket| - |kept|
    {
      kept, removed := [], 0;
      for i := 0 to |bucket|
        invariant kept == Survivors(bucket[..i], thresholds) && removed == i - |kept|
      {
        assert bucket[..i + 1][..i] == bucket[..i];
        if Invalidates(bucket[i], thresholds) {
          removed := removed + 1;
        } else {
          kept := kept + [bucket[i]];
        }
      }
      assert bucket[..|bucket|] == bucket;
    }

    /**
     * InvalidateFrom: when the tx's own key is stored, remove what a brute-force scan for a shared
     * signer at or above its nonces would remove, whatever order the map yields its buckets in, and
     * count it; otherwise change nothing.
     */
    method InvalidateFrom(tx: CosmosTx) returns (removed: nat)
      requires Valid()
      modifies this`txs
      ensures Valid()
      ensures !IsStored(old(txs), tx) ==> txs == old(txs) && removed == 0
      ensures IsStored(old(txs), tx) ==>
                && txs == Scanned(old(txs), NoncesOf(tx))
                && removed == Casualties(old(txs), old(txs).Keys, NoncesOf(tx))
      ensures IsStored(old(txs), tx) ==>
                var nonces := NoncesOf(tx);
                && (forall t :: Holds(txs, t) <==>
                      Holds(old(txs), t) && forall a | a in t.nonceMap && a in nonces :: t.nonceMap[a] < nonces[a])
                && removed == |Reaching(old(txs), old(txs).Keys, nonces)|
      ensures Regular(tx, len) ==> (IsStored(old(txs), tx) <==> IsDuplicate(old(txs), tx))
    {
      hide Holds, IsDuplicate, Regular, Reaching, StoreInv, Stored, SignerSetKey, TxKey, Scanned, Casualties, Survivors;
      removed := 0;
      var t := Stored(tx);
      StoredNonces(tx);
      if Regular(tx, len) { StoredIffDuplicate(txs, tx, len, nextUnkeyed); }
      if t.nonceMap == map[] || t.signerKey == "" || t.txKey == "" {
        return;
      }
      if t.signerKey !in txs {
        return;
      }
      var present := Contains(txs[t.signerKey].txs, t.txKey);
      if !present {
        return;
      }
      ghost var before := txs;
      ScanKeepsInv(before, t.nonceMap, len, nextUnkeyed);
      PartlyScannedNothing(before, t.nonceMap);
      var todo := txs.Keys;
      while todo != {}
        invariant todo <= before.Keys
        invariant PartlyScanned(txs, before, t.nonceMap, todo)
        invariant removed + Casualties(before, todo, t.nonceMap) == Casualties(before, before.Keys, t.nonceMap)
        decreases |todo|
      {
        var k := AnyOf(todo);
        CasualtiesWithout(before, todo, t.nonceMap, k);
        PartlyScannedAt(txs, before, t.nonceMap, todo, k);
        ghost var was := txs;
        if txs[k].signers !! t.nonceMap.Keys {
          PrefilterAgrees(before, t.nonceMap, len, nextUnkeyed, k);
        } else {
          var kept, n := FilterBucket(txs[k].txs, t.nonceMap);
          removed := removed + n;
          txs := if |kept| == 0 then txs - {k} else txs[k := Bucket(kept, txs[k].signers)];
        }
        PartlyScannedOneMore(was, before, t.nonceMap, todo, k, txs);
        todo := todo - {k};
      }
      CasualtiesOfNone(before, t.nonceMap);
      PartlyScannedAll(txs, before, t.nonceMap);
      CasualtiesReach(before, before.Keys, t.nonceMap, len, nextUnkeyed);
      ScannedHoldsAll(before, t.nonceMap);
    }

    /** markTxInserted: a replacement invalidates what depended on the old tx; a fresh tx is added. */
    method MarkInserted(tx: CosmosTx)
      requires Valid()
      modifies this
      ensures txs == Marked(old(txs), tx, old(nextUnkeyed))
      ensures nextUnkeyed == if IsStored(old(txs), tx) then old(nextUnkeyed) else NextUnkeyed(old(nextUnkeyed), tx)
      ensures Regular(tx, len) && old(nextUnkeyed) + 1 < UINT64_LIMIT ==> Valid()
    {
      hide StoreInv, IsStored, Scanned, Added, Casualties;
      ghost var before := txs;
      var removed := InvalidateFrom(tx);
      if removed > 0 {
        return;
      }
      if IsStored(before, tx) {
        NoCasualties(before, NoncesOf(tx), len, nextUnkeyed);
        StoredIsDuplicate(before, tx, nextUnkeyed);
      }
      AddTx(tx);
    }
  }

  /** The buckets after markTxInserted. */
  ghost function Marked(buckets: Buckets, tx: CosmosTx, next: nat): Buckets {
    if IsStored(buckets, tx) then Scanned(buckets, NoncesOf(tx)) else Added(buckets, tx, next)
  }

  /**
   * Marking a tx whose signers are stored at the same nonces drops what does not stand below it, itself
   * included; marking any other adds just that tx.
   */
  lemma MarkedHolds(buckets: Buckets, tx: CosmosTx, len: nat, next: nat, s: StoredTx)
    requires StoreInv(buckets, len, next) && Regular(tx, len)
    ensures IsDuplicate(buckets, tx) ==>
              (Holds(Marked(buckets, tx, next), s) <==> Holds(buckets, s) && StaysBelow(s, NoncesOf(tx)))
    ensures !IsDuplicate(buckets, tx) ==>
              (Holds(Marked(buckets, tx, next), s) <==> Holds(buckets, s) || s == Placed(tx, next))
    ensures Placed(tx, next).tx == tx && Placed(tx, next).nonceMap == NoncesOf(tx)
  {
    hide StoreInv, Added, Scanned, IsStored, IsDuplicate, Holds, Regular, StaysBelow;
    StoredIffDuplicate(buckets, tx, len, next);
    ScannedHolds(buckets, NoncesOf(tx), s);
    AddedExactly(buckets, tx, len, next, s);
  }

  /** The counter of unkeyed txs after AddTx; it is a uint64. */
  function NextUnkeyed(next: nat, tx: CosmosTx): nat {
    if Stored(tx).txKey == "" then (next + 1) % UINT64_LIMIT else next
  }

  lemma StoredNonces(tx: CosmosTx)
    ensures Stored(tx).nonceMap == NoncesOf(tx)
  {
  }

  /** A stored key is a duplicate for AddTx. */
  lemma StoredIsDuplicate(buckets: Buckets, tx: CosmosTx, next: nat)
    requires IsStored(buckets, tx)
    ensures Added(buckets, tx, next) == buckets && NextUnkeyed(next, tx) == next
  {
    hide Stored, InsertSorted;
  }

  /** A scan that removes nothing changes nothing. */
  lemma NoCasualties(buckets: Buckets, thresholds: map<Account, nat>, len: nat, next: nat)
    requires StoreInv(buckets, len, next) && Casualties(buckets, buckets.Keys, thresholds) == 0
    ensures Scanned(buckets, thresholds) == buckets
  {
    hide Casualties, Survivors, Member, Sorted, UniqueKeys;
    forall k | k in buckets ensures Survivors(buckets[k].txs, thresholds) == buckets[k].txs != [] {
      CasualtiesWithout(buckets, buckets.Keys, thresholds, k);
      NobodyGoes(buckets[k].txs, thresholds);
    }
    forall k | k in buckets ensures Scanned(buckets, thresholds)[k] == buckets[k] { }
  }

  lemma {:induction false} NobodyGoes(txs: seq<StoredTx>, thresholds: map<Account, nat>)
    requires |Survivors(txs, thresholds)| == |txs|
    ensures Survivors(txs, thresholds) == txs
  {
    if txs != [] {
      NobodyGoes(txs[..|txs| - 1], thresholds);
      assert txs == txs[..|txs| - 1] + [txs[|txs| - 1]];
    }
  }

  lemma CounterGrows(next: nat, tx: CosmosTx)
    ensures NextUnkeyed(next, tx) <= next + 1
  {
    hide Stored;
  }

  // --- The snapshot ---

  function TxsOf(txs: seq<StoredTx>): (r: seq<CosmosTx>)
    ensures |r| == |txs| && forall i :: 0 <= i < |r| ==> r[i] == txs[i].tx
  {
    seq(|txs|, i requires 0 <= i < |txs| => txs[i].tx)
  }

  /** The txs of the buckets, one bucket after the other. */
  function Flat(keys: seq<string>, buckets: Buckets): seq<CosmosTx>
    requires forall i :: 0 <= i < |keys| ==> keys[i] in buckets
  {
    if keys == [] then []
    else Flat(keys[..|keys| - 1], buckets) + TxsOf(buckets[keys[|keys| - 1]].txs)
  }

  /** snapshotTxs: buckets in the order of their keys. */
  function Snapshot(buckets: Buckets): seq<CosmosTx> {
    assert forall i :: 0 <= i < |SortedKeys(buckets.Keys)| ==> SortedKeys(buckets.Keys)[i] in SortedKeys(buckets.Keys);
    Flat(SortedKeys(buckets.Keys), buckets)
  }

  ghost predicate StandsAt(whole: seq<CosmosTx>, part: seq<CosmosTx>, i: nat) {
    i + |part| <= |whole| && whole[i..i + |part|] == part
  }

  lemma {:induction false} FlatHasBucket(keys: seq<string>, buckets: Buckets, n: nat) returns (i: nat)
    requires (forall k :: 0 <= k < |keys| ==> keys[k] in buckets) && n < |keys|
    ensures StandsAt(Flat(keys, buckets), TxsOf(buckets[keys[n]].txs), i)
  {
    var front := keys[..|keys| - 1];
    if n < |front| {
      i := FlatHasBucket(front, buckets, n);
      var part := TxsOf(buckets[keys[n]].txs);
      assert Flat(keys, buckets)[i..i + |part|] == Flat(front, buckets)[i..i + |part|];
    } else {
      i := |Flat(front, buckets)|;
    }
  }

  /** Every bucket stands in the snapshot, whole and in its own order. */
  lemma SnapshotHasBucket(buckets: Buckets, k: string)
    requires k in buckets
    ensures exists i :: StandsAt(Snapshot(buckets), TxsOf(buckets[k].txs), i)
  {
    var keys := SortedKeys(buckets.Keys);
    assert k in keys;
    var n :| 0 <= n < |keys| && keys[n] == k;
    assert forall i :: 0 <= i < |keys| ==> keys[i] in keys;
    var i := FlatHasBucket(keys, buckets, n);
    assert StandsAt(Snapshot(buckets), TxsOf(buckets[k].txs), i);
  }

  /** The txs of all buckets together. */
  ghost function Together(buckets: Buckets): multiset<CosmosTx> {
    if buckets == map[] then multiset{}
    else
      var k :| k in buckets;
      multiset(TxsOf(buckets[k].txs)) + Together(buckets - {k})
  }

  lemma SumsSwap(x: multiset<CosmosTx>, y: multiset<CosmosTx>, z: multiset<CosmosTx>)
    ensures x + (y + z) == y + (x + z)
  {
  }

  lemma {:induction false} TogetherWithout(buckets: Buckets, k: string)
    requires k in buckets
    ensures Together(buckets) == multiset(TxsOf(buckets[k].txs)) + Together(buckets - {k})
    decreases |buckets|
  {
    hide TxsOf;
    var j :| j in buckets && Together(buckets) == multiset(TxsOf(buckets[j].txs)) + Together(buckets - {j});
    if j != k {
      TogetherWithout(buckets - {j}, k);
      TogetherWithout(buckets - {k}, j);
      assert buckets - {j} - {k} == buckets - {k} - {j};
      SumsSwap(multiset(TxsOf(buckets[j].txs)), multiset(TxsOf(buckets[k].txs)), Together(buckets - {j} - {k}));
    }
  }

  lemma {:induction false} FlatIsTogether(keys: seq<string>, buckets: Buckets, part: Buckets)
    requires (forall i :: 0 <= i < |keys| ==> keys[i] in buckets) && (forall k :: k in keys <==> k in part)
    requires forall i, j :: 0 <= i < j < |keys| ==> keys[i] != keys[j]
    requires forall k :: k in part ==> k in buckets && part[k] == buckets[k]
    ensures multiset(Flat(keys, buckets)) == Together(part)
  {
    hide TxsOf;
    if keys == [] {
      assert part == map[];
    } else {
      var front, k := keys[..|keys| - 1], keys[|keys| - 1];
      assert keys == front + [k];
      assert k in keys && k !in front;
      FlatIsTogether(front, buckets, part - {k});
      TogetherWithout(part, k);
    }
  }

  /** The snapshot holds exactly the stored txs, each as often as it is stored. */
  lemma SnapshotIsTogether(buckets: Buckets)
    ensures multiset(Snapshot(buckets)) == Together(buckets)
  {
    var keys := SortedKeys(buckets.Keys);
    SortedKeysAscend(buckets.Keys);
    assert forall i :: 0 <= i < |keys| ==> keys[i] in keys;
    forall i, j | 0 <= i < j < |keys| ensures keys[i] != keys[j] { LexTrichotomy(keys[i], keys[i]); }
    FlatIsTogether(keys, buckets, buckets);
  }

  // --- Many txs ---

  datatype Contents = Contents(buckets: Buckets, next: nat)

  /** The store after adding the txs in order. */
  function AddAll(c: Contents, txs: seq<CosmosTx>): Contents {
    if txs == [] then c
    else
      var before := AddAll(c, txs[..|txs| - 1]);
      var tx := txs[|txs| - 1];
      Contents(Added(before.buckets, tx, before.next), NextUnkeyed(before.next, tx))
  }

  /** InvalidateFrom on a stored key always removes at least the tx stored under it. */
  lemma StoredIsCasualty(buckets: Buckets, tx: CosmosTx, len: nat, next: nat)
    requires StoreInv(buckets, len, next) && Regular(tx, len) && IsStored(buckets, tx)
    ensures Casualties(buckets, buckets.Keys, NoncesOf(tx)) > 0
  {
    hide Casualties, Survivors, SignerSetKey, TxKey, NonceSum, Sorted, UniqueKeys;
    var t := Stored(tx);
    var k := t.signerKey;
    KeysApart(tx, len);
    SameSigners(buckets, tx, len, next);
    var b := buckets[k];
    var i :| 0 <= i < |b.txs| && b.txs[i].txKey == t.txKey;
    assert Member(b.txs[i], k, b.signers, len, next);
    SameKeySameNonces(b.txs[i], t, k, b.signers, len, next);
    var a :| a in t.nonceMap;
    assert Invalidates(b.txs[i], t.nonceMap);
    SomeoneGoes(b.txs, t.nonceMap, i);
    CasualtiesWithout(buckets, buckets.Keys, t.nonceMap, k);
  }

  lemma {:induction false} SomeoneGoes(txs: seq<StoredTx>, thresholds: map<Account, nat>, i: nat)
    requires i < |txs| && Invalidates(txs[i], thresholds)
    ensures |Survivors(txs, thresholds)| < |txs|
  {
    var n := |txs| - 1;
    if i < n { SomeoneGoes(txs[..n], thresholds, i); }
  }

  lemma StoredEmptyIff(tx: CosmosTx, len: nat)
    requires Regular(tx, len)
    ensures Stored(tx).nonceMap == NoncesOf(tx)
    ensures (Stored(tx).signerKey == "" <==> NoncesOf(tx) == map[]) &&
            (Stored(tx).txKey == "" <==> NoncesOf(tx) == map[])
  {
    if NoncesOf(tx) != map[] { KeysApart(tx, len); }
  }

  /** AddTx advances the counter only for unkeyed txs. */
  lemma AddKeepsInvExactly(buckets: Buckets, tx: CosmosTx, len: nat, next: nat)
    requires StoreInv(buckets, len, next) && Regular(tx, len)
    requires next + 1 < UINT64_LIMIT
    ensures StoreInv(Added(buckets, tx, next), len, NextUnkeyed(next, tx)) && NextUnkeyed(next, tx) <= next + 1
  {
    hide Stored, BucketInv, Added, NoncesOf, Regular;
    AddKeepsInv(buckets, tx, len, next);
    StoredEmptyIff(tx, len);
    if NoncesOf(tx) != map[] {
      KeysApart(tx, len);
      forall k | k in Added(buckets, tx, next) ensures BucketInv(Added(buckets, tx, next)[k], k, len, next) {
        KeyedMembersNeedNoCounter(buckets, tx, len, next, k);
      }
    }
  }

  lemma KeyedMembersNeedNoCounter(buckets: Buckets, tx: CosmosTx, len: nat, next: nat, k: string)
    requires StoreInv(buckets, len, next) && Regular(tx, len) && NoncesOf(tx) != map[] && k in Added(buckets, tx, next)
    requires BucketInv(Added(buckets, tx, next)[k], k, len, next + 1)
    ensures BucketInv(Added(buckets, tx, next)[k], k, len, next)
  {
    KeysApart(tx, len);
    var b := Added(buckets, tx, next)[k];
    if k == Stored(tx).signerKey {
      forall i | 0 <= i < |b.txs| ensures Member(b.txs[i], k, b.signers, len, next) {
        assert Member(b.txs[i], k, b.signers, len, next + 1);
      }
    } else {
      assert b == buckets[k];
    }
  }

  /** Midway through the scan: the buckets in `todo` are untouched, the others are scanned. */
  ghost predicate PartlyScanned(now: Buckets, before: Buckets, thresholds: map<Account, nat>, todo: set<string>) {
    && now.Keys <= before.Keys
    && forall k | k in before ::
         if k in todo then k in now && now[k] == before[k]
         else if Survivors(before[k].txs, thresholds) == [] then k !in now
         else k in now && now[k] == Bucket(Survivors(before[k].txs, thresholds), before[k].signers)
  }

  lemma PartlyScannedNothing(before: Buckets, thresholds: map<Account, nat>)
    ensures PartlyScanned(before, before, thresholds, before.Keys)
  {
  }

  lemma PartlyScannedAt(now: Buckets, before: Buckets, thresholds: map<Account, nat>, todo: set<string>, k: string)
    requires PartlyScanned(now, before, thresholds, todo) && k in todo && todo <= before.Keys
    ensures k in now && now[k] == before[k]
  {
  }

  lemma PartlyScannedOneMore(was: Buckets, before: Buckets, thresholds: map<Account, nat>, todo: set<string>, k: string,
                             now: Buckets)
    requires PartlyScanned(was, before, thresholds, todo) && k in todo && todo <= before.Keys
    requires var kept := Survivors(before[k].txs, thresholds);
             now == if kept == [] then was - {k} else was[k := Bucket(kept, before[k].signers)]
    ensures PartlyScanned(now, before, thresholds, todo - {k})
  {
  }

  lemma PartlyScannedAll(now: Buckets, before: Buckets, thresholds: map<Account, nat>)
    requires PartlyScanned(now, before, thresholds, {})
    ensures now == Scanned(before, thresholds)
  {
    assert forall k :: k in now <==> k in Scanned(before, thresholds);
  }

  lemma CasualtiesOfNone(before: Buckets, thresholds: map<Account, nat>)
    ensures Casualties(before, {}, thresholds) == 0
  {
  }

  /** A bucket the prefilter passes over would lose nothing to the scan. */
  lemma PrefilterAgrees(before: Buckets, thresholds: map<Account, nat>, len: nat, next: nat, k: string)
    requires StoreInv(before, len, next) && k in before && before[k].signers !! thresholds.Keys
    ensures Survivors(before[k].txs, thresholds) == before[k].txs != []
    ensures before[k] == Bucket(before[k].txs, before[k].signers)
  {
    forall i | 0 <= i < |before[k].txs| ensures before[k].txs[i].nonceMap.Keys == before[k].signers {
      assert Member(before[k].txs[i], k, before[k].signers, len, next);
    }
    UntouchedBucket(before[k].txs, before[k].signers, thresholds);
  }

  /** No tx before it has the same signers at the same nonces, or it has none to compare. */
  ghost predicate IsFirst(txs: seq<CosmosTx>, i: nat)
    requires i < |txs|
  {
    NoncesOf(txs[i]) == map[] || forall j | 0 <= j < i :: NoncesOf(txs[j]) != NoncesOf(txs[i])
  }

  ghost predicate IsEntryOf(s: StoredTx, tx: CosmosTx) { s.tx == tx && s.nonceMap == NoncesOf(tx) }

  ghost predicate HoldsEntry(buckets: Buckets, tx: CosmosTx) {
    exists s :: Holds(buckets, s) && IsEntryOf(s, tx)
  }

  /** The buckets hold exactly the first n txs, without those whose signers and nonces came before. */
  ghost predicate HoldsJust(buckets: Buckets, txs: seq<CosmosTx>, n: nat)
    requires n <= |txs|
  {
    && (forall s | Holds(buckets, s) :: exists i :: 0 <= i < n && IsFirst(txs, i) && IsEntryOf(s, txs[i]))
    && (forall i | 0 <= i < n && IsFirst(txs, i) :: HoldsEntry(buckets, txs[i]))
  }

  lemma {:induction false} SomeFirst(txs: seq<CosmosTx>, i: nat) returns (j: nat)
    requires i < |txs|
    ensures j <= i && IsFirst(txs, j) && NoncesOf(txs[j]) == NoncesOf(txs[i])
  {
    if IsFirst(txs, i) {
      return i;
    }
    var k :| 0 <= k < i && NoncesOf(txs[k]) == NoncesOf(txs[i]);
    j := SomeFirst(txs, k);
  }

  /** Then the next tx is a duplicate exactly when it is not the first of its nonces. */
  lemma DuplicateIff(buckets: Buckets, txs: seq<CosmosTx>, n: nat)
    requires n < |txs| && HoldsJust(buckets, txs, n)
    ensures IsDuplicate(buckets, txs[n]) <==> !IsFirst(txs, n)
  {
    hide Holds, NoncesOf;
    if IsDuplicate(buckets, txs[n]) {
      var t :| Holds(buckets, t) && SameNonces(t, NoncesOf(txs[n]));
      var i :| 0 <= i < n && IsFirst(txs, i) && IsEntryOf(t, txs[i]);
    }
    if !IsFirst(txs, n) {
      var k :| 0 <= k < n && NoncesOf(txs[k]) == NoncesOf(txs[n]);
      var j := SomeFirst(txs, k);
      assert HoldsEntry(buckets, txs[j]);
      var t :| Holds(buckets, t) && IsEntryOf(t, txs[j]);
      assert SameNonces(t, NoncesOf(txs[n]));
    }
  }

  lemma HoldsOneMore(buckets: Buckets, txs: seq<CosmosTx>, n: nat, len: nat, next: nat)
    requires n < |txs| && HoldsJust(buckets, txs, n) && StoreInv(buckets, len, next) && Regular(txs[n], len)
    ensures HoldsJust(Added(buckets, txs[n], next), txs, n + 1)
  {
    hide Holds, NoncesOf, StoreInv, Regular, Added, IsFirst, Placed, IsDuplicate;
    var after := Added(buckets, txs[n], next);
    DuplicateIff(buckets, txs, n);
    forall s ensures Holds(after, s) <==> Holds(buckets, s) || (IsFirst(txs, n) && s == Placed(txs[n], next)) {
      AddedExactly(buckets, txs[n], len, next, s);
    }
    PlacedEntry(txs[n], next);
    if IsFirst(txs, n) {
      assert Holds(after, Placed(txs[n], next));
    }
    forall i | 0 <= i < n + 1 && IsFirst(txs, i) ensures HoldsEntry(after, txs[i]) {
      if i < n {
        assert HoldsEntry(buckets, txs[i]);
        var s :| Holds(buckets, s) && IsEntryOf(s, txs[i]);
        assert Holds(after, s);
      }
    }
  }

  lemma PlacedEntry(tx: CosmosTx, next: nat)
    ensures IsEntryOf(Placed(tx, next), tx)
  {
  }

  /** A fresh store to which regular txs were added holds exactly them, each signer set and nonces once. */
  lemma {:induction false} AddAllHolds(txs: seq<CosmosTx>, len: nat, n: nat)
    requires n <= |txs| < UINT64_LIMIT && forall tx | tx in txs :: Regular(tx, len)
    ensures var c := AddAll(Contents(map[], 0), txs[..n]);
            c.next <= n && StoreInv(c.buckets, len, c.next) && HoldsJust(c.buckets, txs, n)
  {
    hide StoreInv, Regular, Added, NextUnkeyed, HoldsJust;
    if n == 0 {
      NothingHeld(txs, len);
    } else {
      AddAllHolds(txs, len, n - 1);
      var before := AddAll(Contents(map[], 0), txs[..n - 1]);
      assert txs[..n][..n - 1] == txs[..n - 1];
      assert txs[n - 1] in txs;
      HoldsOneMore(before.buckets, txs, n - 1, len, before.next);
      AddKeepsInvExactly(before.buckets, txs[n - 1], len, before.next);
    }
  }

  lemma NothingHeld(txs: seq<CosmosTx>, len: nat)
    ensures StoreInv(map[], len, 0) && HoldsJust(map[], txs, 0)
  {
  }
}
