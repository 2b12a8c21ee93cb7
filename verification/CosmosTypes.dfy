/** Cosmos transactions as the mempool sees them, and their stored form with signer metadata. */
module CosmosTypes {
  import opened Common

  type Account = string

  datatype Coin = Coin(denom: string, amount: nat)

  /** The fee part of a tx; gas is a uint64. */
  datatype FeeInfo = FeeInfo(coins: seq<Coin>, gas: nat)

  /** A signature's account and sequence; `nonce` is ChooseNonce's answer, None when it fails. */
  datatype Signer = Signer(account: Account, sequence: nat, nonce: Option<nat>)

  /** `fee` is None for a tx that is no FeeTx, `signers` is None when extraction fails. */
  datatype CosmosTx = CosmosTx(id: nat, fee: Option<FeeInfo>, signers: Option<seq<Signer>>)

  /** cosmosTxWithMetadata; a tx without usable signers has an empty nonce map and empty keys. */
  datatype StoredTx = StoredTx(
    tx: CosmosTx, nonceMap: map<Account, nat>, nonceSum: nat, signerKey: string, txKey: string)

  /** compareCosmosTxWithMetadata(a, b) < 0. */
  predicate StoredLess(a: StoredTx, b: StoredTx) {
    if a.nonceSum != b.nonceSum then a.nonceSum < b.nonceSum else LexLess(a.txKey, b.txKey)
  }

  /** The order is strict, and total between entries whose keys differ. */
  lemma StoredLessTrichotomy(a: StoredTx, b: StoredTx)
    ensures !(StoredLess(a, b) && StoredLess(b, a)) && !StoredLess(a, a)
    ensures StoredLess(a, b) || StoredLess(b, a) || (a.nonceSum == b.nonceSum && a.txKey == b.txKey)
  {
    LexTrichotomy(a.txKey, b.txKey);
    LexTrichotomy(a.txKey, a.txKey);
  }

  lemma StoredLessTransitive(a: StoredTx, b: StoredTx, c: StoredTx)
    requires StoredLess(a, b) && StoredLess(b, c)
    ensures StoredLess(a, c)
  {
    if a.nonceSum == b.nonceSum == c.nonceSum {
      LexTransitive(a.txKey, b.txKey, c.txKey);
    }
  }
}
