/**
 * Splitting a batch over the subpools and putting the errors back in order (TxPool.Add in
 * mempool/txpool/txpool.go).
 */
module TxPoolAdd {
  type Tx = nat

  /** nil, a subpool's error, or "transaction type not supported". */
  datatype Err = Nil | PoolError(code: nat) | Unsupported

  /** A subpool: which txs it accepts, and the errors its Add returns for a batch. */
  datatype SubPool = SubPool(filter: Tx -> bool, add: seq<Tx> -> seq<Err>)

  /** A subpool answers every tx of a batch; TxPool.Add indexes its answer relying on that. */
  ghost predicate AnswersAll(p: SubPool) {
    forall batch: seq<Tx> :: |p.add(batch)| == |batch|
  }

  /** The first subpool that accepts tx, or -1. */
  ghost predicate IsOwner(pools: seq<SubPool>, tx: Tx, j: int) {
    && -1 <= j < |pools|
    && (j >= 0 ==> pools[j].filter(tx))
    && (forall k :: 0 <= k < |pools| && (j == -1 || k < j) ==> !pools[k].filter(tx))
  }

  ghost function Owner(pools: seq<SubPool>, tx: Tx): (j: int)
    ensures IsOwner(pools, tx, j)
  {
    if pools == [] then -1
    else if pools[0].filter(tx) then 0
    else
      var j := Owner(pools[1..], tx);
      assert forall k :: 0 < k < |pools| ==> pools[1..][k - 1] == pools[k];
      if j == -1 then -1 else j + 1
  }

  /** The part of a batch that subpool j gets, in batch order. */
  ghost function Share(pools: seq<SubPool>, txs: seq<Tx>, j: int): seq<Tx> {
    if txs == [] then []
    else
      var n := |txs| - 1;
      Share(pools, txs[..n], j) + if Owner(pools, txs[n]) == j then [txs[n]] else []
  }

  lemma OwnerIsUnique(pools: seq<SubPool>, tx: Tx, j: int)
    requires IsOwner(pools, tx, j)
    ensures j == Owner(pools, tx)
  {
    assert IsOwner(pools, tx, Owner(pools, tx));
  }

  lemma ShareOfNothing(pools: seq<SubPool>, j: int)
    ensures Share(pools, [], j) == []
  {
  }

  lemma ShareOneMore(pools: seq<SubPool>, txs: seq<Tx>, i: nat, j: int)
    requires i < |txs|
    ensures var more := if Owner(pools, txs[i]) == j then [txs[i]] else [];
            Share(pools, txs[..i + 1], j) == Share(pools, txs[..i], j) + more
  {
    assert txs[..i + 1][..i] == txs[..i];
  }

  /** A shorter batch's share is a prefix of the longer one's. */
  lemma {:induction false} SharePrefix(pools: seq<SubPool>, txs: seq<Tx>, i: nat, j: int)
    requires i <= |txs|
    ensures Share(pools, txs[..i], j) <= Share(pools, txs, j)
  {
    if i == |txs| {
      assert txs[..i] == txs;
    } else {
      SharePrefix(pools, txs[..|txs| - 1], i, j);
      assert txs[..|txs| - 1][..i] == txs[..i];
    }
  }

  /** Tx i sits in its owner's share right after the earlier txs of that owner. */
  lemma OwnPlace(pools: seq<SubPool>, txs: seq<Tx>, i: nat)
    requires i < |txs|
    ensures var j := Owner(pools, txs[i]);
            && |Share(pools, txs[..i], j)| < |Share(pools, txs, j)|
            && Share(pools, txs, j)[|Share(pools, txs[..i], j)|] == txs[i]
  {
    var j := Owner(pools, txs[i]);
    ShareOneMore(pools, txs, i, j);
    SharePrefix(pools, txs, i + 1, j);
  }

  /** The inner loop: the first subpool whose filter accepts tx. */
  method FindOwner(pools: seq<SubPool>, tx: Tx) returns (j: int)
    ensures j == Owner(pools, tx)
  {
    j := -1;
    for k := 0 to |pools|
      invariant j == -1
      invariant forall l :: 0 <= l < k ==> !pools[l].filter(tx)
    {
      if pools[k].filter(tx) {
        OwnerIsUnique(pools, tx, k);
        return k;
      }
    }
    OwnerIsUnique(pools, tx, -1);
  }

  /** The first loop of Add: every tx goes to its owner's set, and its owner is remembered. */
  method Split(pools: seq<SubPool>, txs: seq<Tx>) returns (txsets: seq<seq<Tx>>, splits: seq<int>)
    ensures |txsets| == |pools| && |splits| == |txs|
    ensures forall j :: 0 <= j < |pools| ==> txsets[j] == Share(pools, txs, j)
    ensures forall i :: 0 <= i < |txs| ==> splits[i] == Owner(pools, txs[i])
  {
    txsets, splits := seq(|pools|, _ => []), [];
    for i := 0 to |txs|
      invariant |txsets| == |pools| && |splits| == i
      invariant forall j :: 0 <= j < |pools| ==> txsets[j] == Share(pools, txs[..i], j)
      invariant forall k :: 0 <= k < i ==> splits[k] == Owner(pools, txs[k])
    {
      var j := FindOwner(pools, txs[i]);
      if j >= 0 {
        txsets := txsets[j := txsets[j] + [txs[i]]];
      }
      splits := splits + [j];
      forall k | 0 <= k < |pools| ensures txsets[k] == Share(pools, txs[..i + 1], k) { ShareOneMore(pools, txs, i, k); }
    }
    assert txs[..|txs|] == txs;
  }

  /** The last loop of Add: the front error of its owner's remaining answers goes to each tx. */
  method Reassemble(pools: seq<SubPool>, txs: seq<Tx>, splits: seq<int>, answers: seq<seq<Err>>)
    returns (errs: seq<Err>)
    requires |splits| == |txs| && |answers| == |pools|
    requires forall i :: 0 <= i < |txs| ==> splits[i] == Owner(pools, txs[i])
    requires forall j :: 0 <= j < |pools| ==> |answers[j]| == |Share(pools, txs, j)|
    ensures |errs| == |txs|
    ensures forall i :: 0 <= i < |txs| ==> errs[i] == ErrorOf(pools, txs, answers, i)
  {
    hide Share, Owner;
    var errsets := answers;
    errs := [];
    forall j ensures Share(pools, txs[..0], j) == [] { ShareOfNothing(pools, j); assert txs[..0] == []; }
    for i := 0 to |txs|
      invariant |errs| == i && |errsets| == |pools|
      invariant forall j :: 0 <= j < |pools| ==>
                  |Share(pools, txs[..i], j)| <= |answers[j]| && errsets[j] == answers[j][|Share(pools, txs[..i], j)|..]
      invariant forall k :: 0 <= k < i ==> errs[k] == ErrorOf(pools, txs, answers, k)
    {
      var j := splits[i];
      OwnPlace(pools, txs, i);
      if j == -1 {
        errs := errs + [Unsupported];
      } else {
        errs := errs + [errsets[j][0]];
        errsets := errsets[j := errsets[j][1..]];
      }
      forall k | 0 <= k < |pools|
        ensures |Share(pools, txs[..i + 1], k)| <= |answers[k]| &&
                errsets[k] == answers[k][|Share(pools, txs[..i + 1], k)|..]
      {
        ShareOneMore(pools, txs, i, k);
        SharePrefix(pools, txs, i + 1, k);
      }
    }
  }

  /** The answer to tx i: the one at tx i's own place in its owner's share, or Unsupported without an owner. */
  ghost function ErrorOf(pools: seq<SubPool>, txs: seq<Tx>, answers: seq<seq<Err>>, i: nat): Err
    requires i < |txs| && |answers| == |pools|
    requires forall j :: 0 <= j < |pools| ==> |answers[j]| == |Share(pools, txs, j)|
  {
    var j := Owner(pools, txs[i]);
    if j == -1 then Unsupported
    else
      OwnPlace(pools, txs, i);
      answers[j][|Share(pools, txs[..i], j)|]
  }

  /** What the subpools answer to their shares. */
  ghost function Answers(pools: seq<SubPool>, txs: seq<Tx>): (answers: seq<seq<Err>>)
    requires forall j :: 0 <= j < |pools| ==> AnswersAll(pools[j])
    ensures |answers| == |pools|
    ensures forall j :: 0 <= j < |pools| ==>
            answers[j] == pools[j].add(Share(pools, txs, j)) && |answers[j]| == |Share(pools, txs, j)|
  {
    assert forall j :: 0 <= j < |pools| ==>
      AnswersAll(pools[j]) && |pools[j].add(Share(pools, txs, j))| == |Share(pools, txs, j)|;
    seq(|pools|, j requires 0 <= j < |pools| => pools[j].add(Share(pools, txs, j)))
  }

  /** Add: each tx gets the error its own subpool gave it, in the order of the batch. */
  method Add(pools: seq<SubPool>, txs: seq<Tx>) returns (errs: seq<Err>)
    requires forall j :: 0 <= j < |pools| ==> AnswersAll(pools[j])
    ensures |errs| == |txs|
    ensures forall i :: 0 <= i < |txs| ==> errs[i] == ErrorOf(pools, txs, Answers(pools, txs), i)
  {
    var txsets, splits := Split(pools, txs);
    var errsets: seq<seq<Err>> := [];
    for j := 0 to |pools|
      invariant |errsets| == j
      invariant forall k :: 0 <= k < j ==> errsets[k] == pools[k].add(Share(pools, txs, k))
    {
      errsets := errsets + [pools[j].add(txsets[j])];
    }
    assert errsets == Answers(pools, txs);
    errs := Reassemble(pools, txs, splits, errsets);
  }
}
