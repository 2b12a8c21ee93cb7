/**
 * The eth tx indexer and its database (indexer/kv_indexer.go) and the index command's loops
 * (server/indexer_cmd.go).
 */
module KvIndexer {
  import opened Common

  type Hash = string
  type DbKey = string

  // --- Keys ---

  function Pow256(w: nat): (r: nat)
    ensures r > 0
  {
    if w == 0 then 1 else 256 * Pow256(w - 1)
  }

  /** The w low bytes of n, most significant first. */
  function BigEndian(n: nat, w: nat): (s: string)
    ensures |s| == w
  {
    if w == 0 then "" else BigEndian(n / 256, w - 1) + [(n % 256) as char]
  }

  function FromBigEndian(s: string): nat {
    if s == "" then 0 else 256 * FromBigEndian(s[..|s| - 1]) + s[|s| - 1] as int
  }

  lemma {:induction false} BigEndianParses(n: nat, w: nat)
    requires n < Pow256(w)
    ensures FromBigEndian(BigEndian(n, w)) == n
  {
    if w > 0 {
      BigEndianParses(n / 256, w - 1);
      var s := BigEndian(n, w);
      assert s[..w - 1] == BigEndian(n / 256, w - 1);
    }
  }

  /** Big-endian bytes sort like the numbers. */
  lemma {:induction false} BigEndianSorts(m: nat, n: nat, w: nat)
    requires m < n < Pow256(w)
    ensures LexLess(BigEndian(m, w), BigEndian(n, w))
  {
    var a, b := BigEndian(m / 256, w - 1), BigEndian(n / 256, w - 1);
    var x, y := [(m % 256) as char], [(n % 256) as char];
    if m / 256 < n / 256 {
      BigEndianSorts(m / 256, n / 256, w - 1);
      LexTrichotomy(a, b);
      LexFirstPartDecides(a, b, x, y);
    } else {
      LexCommonPrefix(a, x, y);
    }
  }

  const EIGHT_BYTES: nat := 0x1_0000_0000_0000_0000

  lemma Pow256OfEight()
    ensures Pow256(8) == EIGHT_BYTES
  {
    assert Pow256(4) == 0x1_0000_0000;
  }

  const HASH_PREFIX: string := [1 as char]
  const INDEX_PREFIX: string := [2 as char]

  function TxHashKey(hash: Hash): DbKey { HASH_PREFIX + hash }

  /** TxIndexKey; block and index are non-negative. */
  function TxIndexKey(block: nat, index: nat): DbKey { INDEX_PREFIX + (BigEndian(block, 8) + BigEndian(index, 8)) }

  predicate IsIndexKey(key: DbKey) { |key| > 0 && key[0] == 2 as char }

  /** parseBlockNumberFromKey; None for a key of the wrong length. */
  function ParseBlock(key: DbKey): Option<nat> {
    if |key| != 17 then None else Some(FromBigEndian(key[1..9]))
  }

  /** Index keys parse back to their block. */
  lemma IndexKeyParses(block: nat, index: nat)
    requires block < EIGHT_BYTES
    ensures ParseBlock(TxIndexKey(block, index)) == Some(block) && IsIndexKey(TxIndexKey(block, index))
  {
    Pow256OfEight();
    BigEndianParses(block, 8);
    assert TxIndexKey(block, index)[1..9] == BigEndian(block, 8);
  }

  /** Index keys sort by block, then by index. */
  lemma IndexKeysSort(b: nat, i: nat, c: nat, j: nat)
    requires b < EIGHT_BYTES && c < EIGHT_BYTES && i < EIGHT_BYTES && j < EIGHT_BYTES
    requires b < c || (b == c && i < j)
    ensures LexLess(TxIndexKey(b, i), TxIndexKey(c, j))
  {
    Pow256OfEight();
    var x, y := BigEndian(b, 8), BigEndian(c, 8);
    var u, v := BigEndian(i, 8), BigEndian(j, 8);
    LexCommonPrefix(INDEX_PREFIX, x + u, y + v);
    if b < c {
      BigEndianSorts(b, c, 8);
      LexTrichotomy(x, y);
      LexFirstPartDecides(x, y, u, v);
    } else {
      BigEndianSorts(i, j, 8);
      LexCommonPrefix(x, u, v);
    }
  }

  /** The order of index keys is exactly the order of the pairs, so the keys are distinct. */
  lemma IndexKeyOrder(b: nat, i: nat, c: nat, j: nat)
    requires b < EIGHT_BYTES && c < EIGHT_BYTES && i < EIGHT_BYTES && j < EIGHT_BYTES
    ensures LexLess(TxIndexKey(b, i), TxIndexKey(c, j)) <==> b < c || (b == c && i < j)
    ensures TxIndexKey(b, i) == TxIndexKey(c, j) <==> b == c && i == j
  {
    hide TxIndexKey;
    LexTrichotomy(TxIndexKey(b, i), TxIndexKey(c, j));
    if b < c || (b == c && i < j) {
      IndexKeysSort(b, i, c, j);
    } else if c < b || (c == b && j < i) {
      IndexKeysSort(c, j, b, i);
    }
  }

  lemma KeySpacesApart(hash: Hash, block: nat, index: nat)
    ensures TxHashKey(hash) != TxIndexKey(block, index) && !IsIndexKey(TxHashKey(hash))
  {
    assert TxHashKey(hash)[0] == 1 as char && TxIndexKey(block, index)[0] == 2 as char;
  }

  lemma HashKeyInjective(g: Hash, h: Hash)
    requires TxHashKey(g) == TxHashKey(h)
    ensures g == h
  {
    assert TxHashKey(g)[1..] == g && TxHashKey(h)[1..] == h;
  }

  // --- Blocks and their records ---

  datatype Parsed = Parsed(ethTxIndex: int, gasUsed: nat, failed: bool)

  /** `parsed` is the message's entry in the events, if any. */
  datatype EthMsg = EthMsg(hash: Hash, gasLimit: nat, parsed: Option<Parsed>)

  /** A tx of a block with the outcome of each check that may pass it over. */
  datatype BlockTx = BlockTx(
    succeededOrExpected: bool, decodes: bool, isEthTx: bool, parses: bool, codeOk: bool, msgs: seq<EthMsg>)

  datatype Block = Block(height: nat, txs: seq<BlockTx>)

  datatype TxResult = TxResult(
    height: nat, txIndex: nat, msgIndex: nat, ethTxIndex: nat, gasUsed: nat, failed: bool, cumulativeGasUsed: nat)

  datatype Saved = Saved(hash: Hash, result: TxResult)

  predicate Indexable(tx: BlockTx) { tx.succeededOrExpected && tx.decodes && tx.isEthTx && tx.parses }

  /** Gas used and failure of a message; None when a successful tx lacks the message's event. */
  function Outcome(tx: BlockTx, msg: EthMsg): Option<(nat, bool)> {
    if !tx.codeOk then Some((msg.gasLimit, true))
    else if msg.parsed.None? then None
    else Some((msg.parsed.value.gasUsed, msg.parsed.value.failed))
  }

  datatype Partial = Partial(saved: seq<Saved>, cumulative: nat)

  /** The records of the first n messages of a tx, when `eth` eth txs came before it in the block. */
  function TxRecords(height: nat, txIndex: nat, tx: BlockTx, n: nat, eth: nat): (p: Partial)
    requires n <= |tx.msgs|
  {
    if n == 0 then Partial([], 0)
    else
      var p := TxRecords(height, txIndex, tx, n - 1, eth);
      var msg := tx.msgs[n - 1];
      match Outcome(tx, msg)
      case None => p
      case Some((gas, failed)) =>
        var total := (p.cumulative + gas) % UINT64_LIMIT;
        var result := TxResult(height, txIndex, n - 1, eth + |p.saved|, gas, failed, total);
        Partial(p.saved + [Saved(msg.hash, result)], total)
  }

  /** The records of the first n txs of a block. */
  function BlockRecords(b: Block, n: nat): (rs: seq<Saved>)
    requires n <= |b.txs|
  {
    if n == 0 then []
    else
      var rs := BlockRecords(b, n - 1);
      var tx := b.txs[n - 1];
      if Indexable(tx) then rs + TxRecords(b.height, n - 1, tx, |tx.msgs|, |rs|).saved else rs
  }

  function Records(b: Block): seq<Saved> { BlockRecords(b, |b.txs|) }

  /** The records carry consecutive eth indices from `eth` on, and the height. */
  ghost predicate Numbered(rs: seq<Saved>, eth: nat, height: nat) {
    forall k :: 0 <= k < |rs| ==> rs[k].result.ethTxIndex == eth + k && rs[k].result.height == height
  }

  /**
   * The gas of the first n messages of a tx: the gas limits if the tx failed, else what the events say was
   * used, nothing where they are silent.
   */
  function GasTo(tx: BlockTx, n: nat): nat
    requires n <= |tx.msgs|
  {
    if n == 0 then 0
    else
      var msg := tx.msgs[n - 1];
      GasTo(tx, n - 1) + if !tx.codeOk then msg.gasLimit else if msg.parsed.Some? then msg.parsed.value.gasUsed else 0
  }

  /**
   * The record carries the hash and running gas total of the message it names; of a failed tx the gas limit
   * and the failure, else the gas used and failure its event tells.
   */
  ghost predicate Describes(s: Saved, tx: BlockTx) {
    && s.result.msgIndex < |tx.msgs|
    && var msg := tx.msgs[s.result.msgIndex];
    && s.hash == msg.hash
    && (!tx.codeOk ==> s.result.gasUsed == msg.gasLimit && s.result.failed)
    && (tx.codeOk ==> msg.parsed.Some? && s.result.gasUsed == msg.parsed.value.gasUsed
                      && s.result.failed == msg.parsed.value.failed)
    && s.result.cumulativeGasUsed == GasTo(tx, s.result.msgIndex + 1) % UINT64_LIMIT
  }

  ghost predicate Before(s: Saved, t: Saved) {
    s.result.txIndex < t.result.txIndex ||
      (s.result.txIndex == t.result.txIndex && s.result.msgIndex < t.result.msgIndex)
  }

  ghost predicate InBlockOrder(rs: seq<Saved>) {
    forall k, l :: 0 <= k < l < |rs| ==> Before(rs[k], rs[l])
  }

  ghost predicate Names(rs: seq<Saved>, txIndex: nat, msgIndex: nat) {
    exists k :: 0 <= k < |rs| && rs[k].result.txIndex == txIndex && rs[k].result.msgIndex == msgIndex
  }

  lemma NamesStays(rs: seq<Saved>, more: seq<Saved>, txIndex: nat, msgIndex: nat)
    requires Names(rs, txIndex, msgIndex) || Names(more, txIndex, msgIndex)
    ensures Names(rs + more, txIndex, msgIndex)
  {
    if Names(rs, txIndex, msgIndex) {
      var k :| 0 <= k < |rs| && rs[k].result.txIndex == txIndex && rs[k].result.msgIndex == msgIndex;
      assert (rs + more)[k] == rs[k];
    } else {
      var k :| 0 <= k < |more| && more[k].result.txIndex == txIndex && more[k].result.msgIndex == msgIndex;
      assert (rs + more)[|rs| + k] == more[k];
    }
  }

  lemma WrappedSum(a: nat, g: nat)
    ensures (a % UINT64_LIMIT + g) % UINT64_LIMIT == (a + g) % UINT64_LIMIT
  {
  }

  /** The running total is the wrapped sum of the gas so far. */
  lemma {:induction false} RunningTotal(height: nat, txIndex: nat, tx: BlockTx, n: nat, eth: nat)
    requires n <= |tx.msgs|
    ensures TxRecords(height, txIndex, tx, n, eth).cumulative == GasTo(tx, n) % UINT64_LIMIT
  {
    if n > 0 {
      RunningTotal(height, txIndex, tx, n - 1, eth);
      match Outcome(tx, tx.msgs[n - 1])
      case None =>
      case Some((gas, failed)) => WrappedSum(GasTo(tx, n - 1), gas);
    }
  }

  /** One record per message with an outcome among the first n, in order, and no other. */
  ghost predicate ListsMsgs(rs: seq<Saved>, tx: BlockTx, txIndex: nat, n: nat)
    requires n <= |tx.msgs|
  {
    && InBlockOrder(rs)
    && (forall k :: 0 <= k < |rs| ==>
      rs[k].result.txIndex == txIndex && rs[k].result.msgIndex < n && Describes(rs[k], tx))
    && (forall i :: 0 <= i < n && (tx.codeOk ==> tx.msgs[i].parsed.Some?) ==> Names(rs, txIndex, i))
  }

  lemma ListsOneMore(rs: seq<Saved>, tx: BlockTx, txIndex: nat, n: nat, one: Saved)
    requires n < |tx.msgs| && ListsMsgs(rs, tx, txIndex, n)
    requires one.result.txIndex == txIndex && one.result.msgIndex == n && Describes(one, tx)
    ensures ListsMsgs(rs + [one], tx, txIndex, n + 1)
  {
    hide Describes;
    assert Names([one], txIndex, n) by { assert [one][0] == one; }
    forall i | 0 <= i < n + 1 && (tx.codeOk ==> tx.msgs[i].parsed.Some?) ensures Names(rs + [one], txIndex, i) {
      NamesStays(rs, [one], txIndex, i);
    }
  }

  lemma ListsNoMore(rs: seq<Saved>, tx: BlockTx, txIndex: nat, n: nat)
    requires n < |tx.msgs| && ListsMsgs(rs, tx, txIndex, n) && Outcome(tx, tx.msgs[n]).None?
    ensures ListsMsgs(rs, tx, txIndex, n + 1)
  {
    hide Describes;
  }

  lemma NextRecordDescribes(height: nat, txIndex: nat, tx: BlockTx, n: nat, eth: nat)
    requires 0 < n <= |tx.msgs| && Outcome(tx, tx.msgs[n - 1]).Some?
    ensures var before := TxRecords(height, txIndex, tx, n - 1, eth).saved;
            var rs := TxRecords(height, txIndex, tx, n, eth).saved;
            |rs| == |before| + 1 && Describes(rs[|before|], tx)
  {
    hide GasTo;
    RunningTotal(height, txIndex, tx, n, eth);
  }

  lemma NothingListed(tx: BlockTx, txIndex: nat)
    ensures ListsMsgs([], tx, txIndex, 0)
  {
  }

  lemma {:induction false} TxRecordsDescribe(height: nat, txIndex: nat, tx: BlockTx, n: nat, eth: nat)
    requires n <= |tx.msgs|
    ensures ListsMsgs(TxRecords(height, txIndex, tx, n, eth).saved, tx, txIndex, n)
  {
    hide Describes, Outcome, ListsMsgs;
    if n == 0 {
      NothingListed(tx, txIndex);
    } else {
      TxRecordsDescribe(height, txIndex, tx, n - 1, eth);
      var p, q := TxRecords(height, txIndex, tx, n - 1, eth), TxRecords(height, txIndex, tx, n, eth);
      if Outcome(tx, tx.msgs[n - 1]).None? {
        ListsNoMore(p.saved, tx, txIndex, n - 1);
      } else {
        var one := q.saved[|p.saved|];
        NextRecordDescribes(height, txIndex, tx, n, eth);
        ListsOneMore(p.saved, tx, txIndex, n - 1, one);
      }
    }
  }

  /** The tx passes every check, and message i of it has an event unless the tx failed. */
  ghost predicate HasRecord(b: Block, t: int, i: int) {
    && 0 <= t < |b.txs| && 0 <= i < |b.txs[t].msgs|
    && var tx := b.txs[t];
    && tx.succeededOrExpected && tx.decodes && tx.isEthTx && tx.parses
    && (tx.codeOk ==> tx.msgs[i].parsed.Some?)
  }

  ghost predicate DescribesMsgOf(s: Saved, b: Block) {
    && s.result.txIndex < |b.txs|
    && var tx := b.txs[s.result.txIndex];
    tx.succeededOrExpected && tx.decodes && tx.isEthTx && tx.parses && Describes(s, tx)
  }

  /** The first n txs of a block give one record per eth message with an outcome, in block order, and no other. */
  lemma {:induction false} BlockRecordsDescribe(b: Block, n: nat)
    requires n <= |b.txs|
    ensures var rs := BlockRecords(b, n);
            && InBlockOrder(rs)
            && (forall k :: 0 <= k < |rs| ==> rs[k].result.txIndex < n && DescribesMsgOf(rs[k], b))
            && (forall t, i :: 0 <= t < n && HasRecord(b, t, i) ==> Names(rs, t, i))
  {
    hide Outcome, Describes, TxRecords;
    if n > 0 {
      BlockRecordsDescribe(b, n - 1);
      var before, rs, tx := BlockRecords(b, n - 1), BlockRecords(b, n), b.txs[n - 1];
      if Indexable(tx) {
        TxRecordsDescribe(b.height, n - 1, tx, |tx.msgs|, |before|);
        var more := TxRecords(b.height, n - 1, tx, |tx.msgs|, |before|).saved;
        assert rs == before + more;
        forall t, i | 0 <= t < n && HasRecord(b, t, i)
          ensures Names(rs, t, i)
        {
          NamesStays(before, more, t, i);
        }
      }
    }
  }

  lemma {:induction false} TxRecordsNumbered(height: nat, txIndex: nat, tx: BlockTx, n: nat, eth: nat)
    requires n <= |tx.msgs|
    ensures Numbered(TxRecords(height, txIndex, tx, n, eth).saved, eth, height)
  {
    if n > 0 {
      TxRecordsNumbered(height, txIndex, tx, n - 1, eth);
      var before := TxRecords(height, txIndex, tx, n - 1, eth).saved;
      if Outcome(tx, tx.msgs[n - 1]).Some? {
        assert |TxRecords(height, txIndex, tx, n, eth).saved| == |before| + 1;
      } else {
        assert TxRecords(height, txIndex, tx, n, eth).saved == before;
      }
    }
  }

  /** Eth indices are consecutive from 0 over the whole block. */
  lemma {:induction false} RecordsNumbered(b: Block, n: nat)
    requires n <= |b.txs|
    ensures Numbered(BlockRecords(b, n), 0, b.height)
  {
    if n > 0 {
      RecordsNumbered(b, n - 1);
      var before, tx := BlockRecords(b, n - 1), b.txs[n - 1];
      TxRecordsNumbered(b.height, n - 1, tx, |tx.msgs|, |before|);
      if Indexable(tx) {
        assert BlockRecords(b, n) == before + TxRecords(b.height, n - 1, tx, |tx.msgs|, |before|).saved;
      } else {
        assert BlockRecords(b, n) == before;
      }
    }
  }

  // --- The database ---

  /** A stored value: an encoded result or the bytes of a hash. */
  datatype DbValue = Result(result: TxResult) | HashRef(hash: Hash)

  type Db = map<DbKey, DbValue>

  function Save(db: Db, s: Saved): Db {
    db[TxHashKey(s.hash) := Result(s.result)][TxIndexKey(s.result.height, s.result.ethTxIndex) := HashRef(s.hash)]
  }

  function SaveAll(db: Db, rs: seq<Saved>): Db {
    if rs == [] then db else Save(SaveAll(db, rs[..|rs| - 1]), rs[|rs| - 1])
  }

  function GetByTxHash(db: Db, hash: Hash): Option<TxResult> {
    var key := TxHashKey(hash);
    if key in db && db[key].Result? then Some(db[key].result) else None
  }

  function GetByBlockAndIndex(db: Db, block: nat, index: nat): Option<TxResult> {
    var key := TxIndexKey(block, index);
    if key in db && db[key].HashRef? then GetByTxHash(db, db[key].hash) else None
  }

  /** Both entries of the record are in place. */
  ghost predicate Present(db: Db, s: Saved) {
    && TxHashKey(s.hash) in db && db[TxHashKey(s.hash)] == Result(s.result)
    && TxIndexKey(s.result.height, s.result.ethTxIndex) in db
    && db[TxIndexKey(s.result.height, s.result.ethTxIndex)] == HashRef(s.hash)
  }

  ghost predicate InRange(s: Saved) {
    s.result.height < EIGHT_BYTES && s.result.ethTxIndex < EIGHT_BYTES
  }

  /** The records disagree in hash and in place. */
  ghost predicate Apart(s: Saved, t: Saved) {
    && InRange(s) && InRange(t) && s.hash != t.hash
    && (s.result.height != t.result.height || s.result.ethTxIndex != t.result.ethTxIndex)
  }

  lemma SaveKeepsOthers(db: Db, s: Saved, t: Saved)
    requires Present(db, s) && (Apart(s, t) || s == t)
    ensures Present(Save(db, t), s)
  {
    hide TxHashKey, TxIndexKey;
    if s != t {
      if TxHashKey(s.hash) == TxHashKey(t.hash) { HashKeyInjective(s.hash, t.hash); }
      IndexKeyOrder(s.result.height, s.result.ethTxIndex, t.result.height, t.result.ethTxIndex);
    }
    KeySpacesApart(s.hash, t.result.height, t.result.ethTxIndex);
    KeySpacesApart(t.hash, s.result.height, s.result.ethTxIndex);
  }

  lemma SavePlaces(db: Db, s: Saved)
    ensures Present(Save(db, s), s)
  {
    KeySpacesApart(s.hash, s.result.height, s.result.ethTxIndex);
  }

  lemma {:induction false} SaveAllKeeps(db: Db, rs: seq<Saved>, s: Saved)
    requires Present(db, s) && forall k | 0 <= k < |rs| :: Apart(s, rs[k]) || s == rs[k]
    ensures Present(SaveAll(db, rs), s)
  {
    hide Present, Save, Apart;
    if rs != [] {
      SaveAllKeeps(db, rs[..|rs| - 1], s);
      SaveKeepsOthers(SaveAll(db, rs[..|rs| - 1]), s, rs[|rs| - 1]);
    }
  }

  lemma {:induction false} SaveAllPlaces(db: Db, rs: seq<Saved>, k: nat)
    requires k < |rs| && forall l | 0 <= l < |rs| && l != k :: Apart(rs[k], rs[l])
    ensures Present(SaveAll(db, rs), rs[k])
  {
    hide Present, Save, Apart;
    var n := |rs| - 1;
    if k == n {
      SavePlaces(SaveAll(db, rs[..n]), rs[n]);
    } else {
      SaveAllPlaces(db, rs[..n], k);
      SaveKeepsOthers(SaveAll(db, rs[..n]), rs[k], rs[n]);
    }
  }

  /** Index keys after saving: the old ones and the records' own. */
  lemma {:induction false} SaveAllIndexKeys(db: Db, rs: seq<Saved>, key: DbKey)
    requires IsIndexKey(key)
    ensures key in SaveAll(db, rs) <==>
              key in db || exists k :: 0 <= k < |rs| && key == TxIndexKey(rs[k].result.height, rs[k].result.ethTxIndex)
  {
    hide TxHashKey, TxIndexKey;
    if rs != [] {
      var n := |rs| - 1;
      SaveAllIndexKeys(db, rs[..n], key);
      KeySpacesApart(rs[n].hash, 0, 0);
      assert forall k :: 0 <= k < n ==> rs[..n][k] == rs[k];
    }
  }

  ghost predicate HasHash(rs: seq<Saved>, hash: Hash) { exists k :: 0 <= k < |rs| && rs[k].hash == hash }

  /** Hash keys after saving: the old ones and the records' own. */
  lemma {:induction false} SaveAllHashKeys(db: Db, rs: seq<Saved>, hash: Hash)
    ensures TxHashKey(hash) in SaveAll(db, rs) <==> TxHashKey(hash) in db || HasHash(rs, hash)
  {
    hide TxHashKey, TxIndexKey;
    if rs != [] {
      var n := |rs| - 1;
      SaveAllHashKeys(db, rs[..n], hash);
      KeySpacesApart(hash, rs[n].result.height, rs[n].result.ethTxIndex);
      if TxHashKey(hash) == TxHashKey(rs[n].hash) { HashKeyInjective(hash, rs[n].hash); }
      assert HasHash(rs, hash) <==> HasHash(rs[..n], hash) || rs[n].hash == hash by {
        assert forall k :: 0 <= k < n ==> rs[..n][k] == rs[k];
      }
    }
  }

  // --- A chain and the blocks processed so far ---

  type Chain = nat -> Block

  /** Blocks carry their height, and no two messages of the chain's first `top` blocks share a hash. */
  ghost predicate GoodChain(chain: Chain, top: nat) {
    && top < 0x8000_0000_0000_0000
    && (forall b | 0 <= b <= top :: chain(b).height == b && |Records(chain(b))| < 0x8000_0000)
    && (forall b, k, c, l | 0 <= b <= top && 0 <= c <= top && 0 <= k < |Records(chain(b))| &&
      0 <= l < |Records(chain(c))| && (b != c || k != l) ::
          Records(chain(b))[k].hash != Records(chain(c))[l].hash)
  }

  ghost predicate HasEth(chain: Chain, b: nat) { Records(chain(b)) != [] }

  /** The database holds exactly the records of the processed blocks. */
  ghost predicate Holds(db: Db, chain: Chain, top: nat, processed: set<nat>) {
    && (forall b | b in processed :: b <= top)
    && (forall b, k | b in processed && 0 <= k < |Records(chain(b))| :: Present(db, Records(chain(b))[k]))
    && (forall key | key in db && IsIndexKey(key) ::
          exists b, k :: b in processed && 0 <= k < |Records(chain(b))| && key == TxIndexKey(b, k))
    && (forall hash | TxHashKey(hash) in db :: exists b :: b in processed && HasHash(Records(chain(b)), hash))
  }

  lemma RecordsApart(chain: Chain, top: nat, b: nat, k: nat, c: nat, l: nat)
    requires GoodChain(chain, top) && b <= top && c <= top && k < |Records(chain(b))| && l < |Records(chain(c))| &&
             (b != c || k != l)
    ensures Apart(Records(chain(b))[k], Records(chain(c))[l])
  {
    RecordsNumbered(chain(b), |chain(b).txs|);
    RecordsNumbered(chain(c), |chain(c).txs|);
  }

  /** Indexing one more block leaves every processed block's records in place and adds its own. */
  lemma IndexKeepsHolds(db: Db, chain: Chain, top: nat, processed: set<nat>, b: nat)
    requires GoodChain(chain, top) && Holds(db, chain, top, processed) && b <= top
    ensures Holds(SaveAll(db, Records(chain(b))), chain, top, processed + {b})
  {
    hide Records, Present, Apart, GoodChain, TxIndexKey;
    var rs := Records(chain(b));
    var db' := SaveAll(db, rs);
    forall c, k | c in processed + {b} && 0 <= k < |Records(chain(c))|
      ensures Present(db', Records(chain(c))[k])
    {
      var s := Records(chain(c))[k];
      forall l | 0 <= l < |rs| && (c != b || l != k) ensures Apart(s, rs[l]) { RecordsApart(chain, top, c, k, b, l); }
      if c == b { SaveAllPlaces(db, rs, k); } else { SaveAllKeeps(db, rs, s); }
    }
    forall key | key in db' && IsIndexKey(key)
      ensures exists c, k :: c in processed + {b} && 0 <= k < |Records(chain(c))| && key == TxIndexKey(c, k)
    {
      SaveAllIndexKeys(db, rs, key);
      RecordPlaces(chain, top, b);
      if key in db {
        var c, k :| c in processed && 0 <= k < |Records(chain(c))| && key == TxIndexKey(c, k);
        assert c in processed + {b};
      } else {
        var k :| 0 <= k < |rs| && key == TxIndexKey(rs[k].result.height, rs[k].result.ethTxIndex);
        assert b in processed + {b} && key == TxIndexKey(b, k);
      }
    }
    forall hash | TxHashKey(hash) in db' ensures exists c :: c in processed + {b} && HasHash(Records(chain(c)), hash) {
      SaveAllHashKeys(db, rs, hash);
      if TxHashKey(hash) in db {
        var c :| c in processed && HasHash(Records(chain(c)), hash);
        assert c in processed + {b};
      } else {
        assert b in processed + {b};
      }
    }
  }

  lemma RecordPlaces(chain: Chain, top: nat, b: nat)
    requires GoodChain(chain, top) && b <= top
    ensures forall k | 0 <= k < |Records(chain(b))| ::
            Records(chain(b))[k].result.height == b && Records(chain(b))[k].result.ethTxIndex == k
  {
    RecordsNumbered(chain(b), |chain(b).txs|);
  }

  /** A lookup by block and index returns that message's own record; anything else is not found. */
  lemma LookupFindsOwnRecord(db: Db, chain: Chain, top: nat, processed: set<nat>, b: nat, k: nat)
    requires GoodChain(chain, top) && Holds(db, chain, top, processed) && b < EIGHT_BYTES && k < EIGHT_BYTES
    ensures b in processed && k < |Records(chain(b))| ==>
            GetByBlockAndIndex(db, b, k) == Some(Records(chain(b))[k].result)
    ensures !(b in processed && k < |Records(chain(b))|) ==> GetByBlockAndIndex(db, b, k) == None
  {
    if b in processed && k < |Records(chain(b))| {
      RecordPlaces(chain, top, b);
      assert Present(db, Records(chain(b))[k]);
    } else if TxIndexKey(b, k) in db {
      IndexKeyParses(b, k);
      var c, l :| c in processed && 0 <= l < |Records(chain(c))| && TxIndexKey(b, k) == TxIndexKey(c, l);
      IndexKeyOrder(b, k, c, l);
    }
  }

  // --- First and last indexed block ---

  /** A lookup by hash finds exactly the processed records, each as its own. */
  lemma HashFindsOwnRecord(db: Db, chain: Chain, top: nat, processed: set<nat>, hash: Hash)
    requires GoodChain(chain, top) && Holds(db, chain, top, processed)
    ensures GetByTxHash(db, hash).Some? <==> exists b :: b in processed && HasHash(Records(chain(b)), hash)
    ensures forall b, k | b in processed && 0 <= k < |Records(chain(b))| && Records(chain(b))[k].hash == hash ::
              GetByTxHash(db, hash) == Some(Records(chain(b))[k].result)
  {
    hide Records, TxHashKey, TxIndexKey;
    forall b, k | b in processed && 0 <= k < |Records(chain(b))| && Records(chain(b))[k].hash == hash
      ensures GetByTxHash(db, hash) == Some(Records(chain(b))[k].result)
    {
      assert Present(db, Records(chain(b))[k]);
    }
    if b :| b in processed && HasHash(Records(chain(b)), hash) {
      var k :| 0 <= k < |Records(chain(b))| && Records(chain(b))[k].hash == hash;
      assert GetByTxHash(db, hash) == Some(Records(chain(b))[k].result);
    }
  }

  function IndexKeys(db: Db): set<DbKey> { set k | k in db && IsIndexKey(k) }

  /** LoadFirstBlock: the block of the first key of the index range, -1 when it is empty. */
  function FirstBlock(db: Db): int {
    if IndexKeys(db) == {} then -1
    else
      var b := ParseBlock(Least(IndexKeys(db)));
      if b.Some? then b.value else 0
  }

  /** LoadLastBlock, with a reverse iterator. */
  function LastBlock(db: Db): int {
    if IndexKeys(db) == {} then -1
    else
      var b := ParseBlock(Greatest(IndexKeys(db)));
      if b.Some? then b.value else 0
  }

  lemma KeyOfProcessed(db: Db, chain: Chain, top: nat, processed: set<nat>, key: DbKey)
    requires GoodChain(chain, top) && Holds(db, chain, top, processed) && key in IndexKeys(db)
    ensures exists b, k ::
              b in processed && 0 <= k < |Records(chain(b))| && key == TxIndexKey(b, k) && ParseBlock(key) == Some(b)
  {
    var b, k :| b in processed && 0 <= k < |Records(chain(b))| && key == TxIndexKey(b, k);
    IndexKeyParses(b, k);
  }

  lemma ProcessedKey(db: Db, chain: Chain, top: nat, processed: set<nat>, b: nat)
    requires GoodChain(chain, top) && Holds(db, chain, top, processed) && b in processed && HasEth(chain, b)
    ensures TxIndexKey(b, 0) in IndexKeys(db)
  {
    RecordPlaces(chain, top, b);
    assert Present(db, Records(chain(b))[0]);
    IndexKeyParses(b, 0);
  }

  /** The first and last indexed blocks are the smallest and largest processed blocks with an eth tx. */
  lemma FirstAndLastAreExtremes(db: Db, chain: Chain, top: nat, processed: set<nat>)
    requires GoodChain(chain, top) && Holds(db, chain, top, processed)
    ensures FirstBlock(db) == -1 <==> forall b | b in processed :: !HasEth(chain, b)
    ensures LastBlock(db) == -1 <==> FirstBlock(db) == -1
    ensures FirstBlock(db) != -1 ==>
              && 0 <= FirstBlock(db) <= LastBlock(db) <= top
              && FirstBlock(db) in processed && HasEth(chain, FirstBlock(db))
              && LastBlock(db) in processed && HasEth(chain, LastBlock(db))
              && forall b | b in processed && HasEth(chain, b) :: FirstBlock(db) <= b <= LastBlock(db)
  {
    hide Records, TxIndexKey, ParseBlock, Present;
    var keys := IndexKeys(db);
    if keys == {} {
      forall b | b in processed ensures !HasEth(chain, b) {
        if HasEth(chain, b) { ProcessedKey(db, chain, top, processed, b); }
      }
    } else {
      FirstIsSmallest(db, chain, top, processed);
      LastIsLargest(db, chain, top, processed);
    }
  }

  lemma FirstIsSmallest(db: Db, chain: Chain, top: nat, processed: set<nat>)
    requires GoodChain(chain, top) && Holds(db, chain, top, processed) && IndexKeys(db) != {}
    ensures FirstBlock(db) >= 0 && FirstBlock(db) in processed && HasEth(chain, FirstBlock(db))
    ensures forall b | b in processed && HasEth(chain, b) :: FirstBlock(db) <= b
  {
    hide Records, TxIndexKey, ParseBlock, Present;
    var least := Least(IndexKeys(db));
    KeyOfProcessed(db, chain, top, processed, least);
    var f, k :| f in processed && 0 <= k < |Records(chain(f))| && least == TxIndexKey(f, k) &&
      ParseBlock(least) == Some(f);
    forall b | b in processed && HasEth(chain, b) ensures f <= b {
      ProcessedKey(db, chain, top, processed, b);
      IndexKeyOrder(f, k, b, 0);
      assert TxIndexKey(b, 0) == least || LexLess(least, TxIndexKey(b, 0));
    }
  }

  lemma LastIsLargest(db: Db, chain: Chain, top: nat, processed: set<nat>)
    requires GoodChain(chain, top) && Holds(db, chain, top, processed) && IndexKeys(db) != {}
    ensures 0 <= LastBlock(db) <= top && LastBlock(db) in processed && HasEth(chain, LastBlock(db))
    ensures forall b | b in processed && HasEth(chain, b) :: b <= LastBlock(db)
  {
    hide Records, TxIndexKey, ParseBlock, Present;
    var most := Greatest(IndexKeys(db));
    KeyOfProcessed(db, chain, top, processed, most);
    var f, k :| f in processed && 0 <= k < |Records(chain(f))| && most == TxIndexKey(f, k) &&
      ParseBlock(most) == Some(f);
    forall b | b in processed && HasEth(chain, b) ensures b <= f {
      ProcessedKey(db, chain, top, processed, b);
      IndexKeyOrder(b, 0, f, k);
      assert TxIndexKey(b, 0) == most || LexLess(TxIndexKey(b, 0), most);
    }
  }

  // --- The index command ---

  /** Between the first and the last indexed block every block with an eth tx was processed. */
  ghost predicate NoGap(db: Db, chain: Chain, processed: set<nat>) {
    forall b: nat | FirstBlock(db) <= b <= LastBlock(db) && HasEth(chain, b) && FirstBlock(db) != -1 :: b in processed
  }

  class KVIndexer {
    var db: Db
    /** The blocks whose records were written. */
    ghost var processed: set<nat>

    constructor ()
      ensures db == map[] && processed == {}
    {
      db, processed := map[], {};
    }

    /** The messages of one tx, with the running gas total. */
    method IndexTx(height: nat, txIndex: nat, tx: BlockTx, batch: seq<Saved>) returns (r: seq<Saved>)
      ensures r == batch + TxRecords(height, txIndex, tx, |tx.msgs|, |batch|).saved
    {
      var cumulative := 0;
      r := batch;
      ghost var eth := |batch|;
      for j := 0 to |tx.msgs|
        invariant r == batch + TxRecords(height, txIndex, tx, j, eth).saved
        invariant cumulative == TxRecords(height, txIndex, tx, j, eth).cumulative
      {
        var outcome := Outcome(tx, tx.msgs[j]);
        if outcome.Some? {
          cumulative := (cumulative + outcome.value.0) % UINT64_LIMIT;
          var result := TxResult(height, txIndex, j, |r|, outcome.value.0, outcome.value.1, cumulative);
          r := r + [Saved(tx.msgs[j].hash, result)];
        }
      }
    }

    /** IndexBlock: collect the records of every eth message in a batch and write it at once. */
    method IndexBlock(block: Block, writes: bool) returns (ok: bool)
      modifies this`db
      ensures ok <==> writes
      ensures db == if ok then SaveAll(old(db), Records(block)) else old(db)
    {
      var batch: seq<Saved> := [];
      for i := 0 to |block.txs|
        invariant batch == BlockRecords(block, i) && db == old(db)
      {
        if Indexable(block.txs[i]) {
          batch := IndexTx(block.height, i, block.txs[i], batch);
        }
      }
      if !writes {
        return false;
      }
      var i := 0;
      while i < |batch|
        invariant 0 <= i <= |batch|
        invariant db == SaveAll(old(db), batch[..i])
      {
        assert batch[..i + 1][..i] == batch[..i];
        db := db[TxHashKey(batch[i].hash) := Result(batch[i].result)];
        db := db[TxIndexKey(batch[i].result.height, batch[i].result.ethTxIndex) := HashRef(batch[i].hash)];
        i := i + 1;
      }
      assert batch[..|batch|] == batch;
      return true;
    }

    ghost predicate Valid(chain: Chain, top: nat)
      reads this
    {
      GoodChain(chain, top) && Holds(db, chain, top, processed) && NoGap(db, chain, processed)
    }

    /** indexBlock of the command: a block that cannot be loaded or written ends the run. */
    method IndexHeight(chain: Chain, top: nat, b: nat, writes: bool) returns (ok: bool)
      requires GoodChain(chain, top) && Holds(db, chain, top, processed) && b <= top
      modifies this
      ensures ok <==> writes
      ensures Holds(db, chain, top, processed) && processed == if ok then old(processed) + {b} else old(processed)
    {
      hide GoodChain, Holds, Records;
      ok := IndexBlock(chain(b), writes);
      if ok {
        IndexKeepsHolds(old(db), chain, top, processed, b);
        processed := processed + {b};
      }
    }

    /**
     * index-eth-tx backward: from just below the first indexed block, or from just below the chain's
     * height when nothing is indexed, down to 1; `fails` tells the blocks that cannot be indexed.
     */
    method IndexBackward(chain: Chain, height: nat, fails: nat -> bool)
      requires Valid(chain, height)
      modifies this
      ensures Valid(chain, height) && old(processed) <= processed
      ensures (forall b :: !fails(b)) ==>
              processed == old(processed) + Range(1, if old(FirstBlock(db)) == -1 then height else old(FirstBlock(db)))
    {
      hide GoodChain, Holds, Records, HasEth, NoGap;
      FirstAndLastAreExtremes(db, chain, height, processed);
      ghost var before, done := db, processed;
      var first := FirstBlock(db);
      if first == -1 {
        first := height;
      }
      var i := first - 1;
      assert Range(i + 1, first) == {} && (first <= 1 ==> Range(1, first) == {});
      while i > 0
        invariant -1 <= i < first <= height && (i < 0 ==> first == 0) && processed == done + Range(i + 1, first)
        invariant Holds(db, chain, height, processed)
        decreases i
      {
        var ok := IndexHeight(chain, height, i, !fails(i));
        if !ok {
          break;
        }
        assert Range(i, first) == Range(i + 1, first) + {i};
        i := i - 1;
      }
      BackwardLeavesNoGap(before, done, db, processed, chain, height, i + 1, first);
    }

    /** index-eth-tx forward: from just above the last indexed block, or from 1, up to the chain's height. */
    method IndexForward(chain: Chain, height: nat, fails: nat -> bool)
      requires Valid(chain, height)
      modifies this
      ensures Valid(chain, height) && old(processed) <= processed
      ensures (forall b :: !fails(b)) ==>
              processed == old(processed) +
              Range(if old(LastBlock(db)) == -1 then 1 else old(LastBlock(db)) + 1, height + 1)
    {
      hide GoodChain, Holds, Records, HasEth, NoGap;
      FirstAndLastAreExtremes(db, chain, height, processed);
      ghost var before, done := db, processed;
      var latest := LastBlock(db);
      if latest == -1 {
        latest := 0;
      }
      var i := latest + 1;
      assert Range(latest + 1, i) == {};
      while i <= height
        invariant latest < i <= height + 1 && processed == done + Range(latest + 1, i)
        invariant Holds(db, chain, height, processed)
        decreases height - i
      {
        var ok := IndexHeight(chain, height, i, !fails(i));
        if !ok {
          break;
        }
        assert Range(latest + 1, i + 1) == Range(latest + 1, i) + {i};
        i := i + 1;
      }
      ForwardLeavesNoGap(before, done, db, processed, chain, height, latest, i);
    }
  }

  predicate Between(lo: int, b: nat, hi: int) { lo <= b < hi }

  ghost function Range(lo: int, hi: int): set<nat> { set b: nat | lo <= b < hi && Between(lo, b, hi) }

  lemma BackwardLeavesNoGap(before: Db, done: set<nat>, db: Db, processed: set<nat>, chain: Chain, top: nat, lo: int,
                            first: int)
    requires GoodChain(chain, top) && Holds(before, chain, top, done) && Holds(db, chain, top, processed) &&
             NoGap(before, chain, done)
    requires processed == done + Range(lo, first) &&
             first == if FirstBlock(before) == -1 then top else FirstBlock(before)
    ensures NoGap(db, chain, processed)
  {
    hide GoodChain, Holds, HasEth, FirstBlock, LastBlock;
    FirstAndLastAreExtremes(before, chain, top, done);
    FirstAndLastAreExtremes(db, chain, top, processed);
    forall b: nat | FirstBlock(db) <= b <= LastBlock(db) && HasEth(chain, b) && FirstBlock(db) != -1
      ensures b in processed
    {
      assert FirstBlock(db) in done || FirstBlock(db) in Range(lo, first);
      assert LastBlock(db) in done || LastBlock(db) in Range(lo, first);
      assert b in done || b in Range(lo, first);
    }
  }

  lemma ForwardLeavesNoGap(before: Db, done: set<nat>, db: Db, processed: set<nat>, chain: Chain, top: nat, latest: int,
                           hi: int)
    requires GoodChain(chain, top) && Holds(before, chain, top, done) && Holds(db, chain, top, processed) &&
             NoGap(before, chain, done)
    requires processed == done + Range(latest + 1, hi) &&
             latest == if LastBlock(before) == -1 then 0 else LastBlock(before)
    ensures NoGap(db, chain, processed)
  {
    hide GoodChain, Holds, HasEth, FirstBlock, LastBlock;
    FirstAndLastAreExtremes(before, chain, top, done);
    FirstAndLastAreExtremes(db, chain, top, processed);
    forall b: nat | FirstBlock(db) <= b <= LastBlock(db) && HasEth(chain, b) && FirstBlock(db) != -1
      ensures b in processed
    {
      assert FirstBlock(db) in done || FirstBlock(db) in Range(latest + 1, hi);
      assert LastBlock(db) in done || LastBlock(db) in Range(latest + 1, hi);
      assert b in done || b in Range(latest + 1, hi);
    }
  }

  /** A fresh indexer, and one whose chain has grown since, meet the command's precondition. */
  lemma ReadyToRun(db: Db, chain: Chain, top: nat, taller: nat, processed: set<nat>)
    requires GoodChain(chain, taller) && top <= taller
    ensures Holds(map[], chain, taller, {}) && NoGap(map[], chain, {})
    ensures Holds(db, chain, top, processed) ==> Holds(db, chain, taller, processed)
  {
    assert IndexKeys(map[]) == {};
  }
}
