/**
 * The Cosmos pool and its recheck (mempool/recheck_pool.go, mempool/rechecker.go). The ante handler
 * is any function from a state and a tx to a new state or an error; a state is known by its number.
 */
module RecheckPool {
  import opened Common
  import opened CosmosTypes
  import opened Reserver
  import P = ReservationProtocol
  import S = TxStore

  type Ctx = nat

  datatype AnteResult = Pass(ctx: Ctx) | WrongSequence | Rejected

  type Ante = (Ctx, CosmosTx) -> AnteResult

  // --- What a recheck decides, said without the loop's bookkeeping ---

  /** Kept; removed for a sequence the chain has passed; removed by another ante error; removed for a
      signer that failed earlier at a lower sequence; or left alone because its signers are unreadable. */
  datatype Verdict = Kept | Stale | Failed | Doomed | Unreadable

  /** The verdicts after which the signers' later txs go too. */
  predicate Evicting(v: Verdict) { v == Failed || v == Doomed }

  predicate Removes(v: Verdict) { v == Stale || v == Failed || v == Doomed }

  function SignersOf(tx: CosmosTx): seq<Signer> { if tx.signers.Some? then tx.signers.value else [] }

  predicate SignsBelow(signers: seq<Signer>, account: Account, sequence: nat) {
    exists k :: 0 <= k < |signers| && signers[k].account == account && signers[k].sequence < sequence
  }

  /** Some tx of the list was evicted with this account signing at a lower sequence. */
  ghost predicate FailedBelow(txs: seq<CosmosTx>, vs: seq<Verdict>, account: Account, sequence: nat)
    requires |vs| == |txs|
  {
    exists j :: 0 <= j < |txs| && Evicting(vs[j]) && SignsBelow(SignersOf(txs[j]), account, sequence)
  }

  ghost predicate IsDoomed(txs: seq<CosmosTx>, vs: seq<Verdict>, tx: CosmosTx)
    requires |vs| == |txs|
  {
    exists k :: 0 <= k < |SignersOf(tx)| && FailedBelow(txs, vs, SignersOf(tx)[k].account, SignersOf(tx)[k].sequence)
  }

  /** The state after the ante handler ran over txs in order, skipping the ones it refuses. */
  function Fold(ante: Ante, base: Ctx, txs: seq<CosmosTx>): Ctx {
    if txs == [] then base
    else
      var before := Fold(ante, base, txs[..|txs| - 1]);
      var r := ante(before, txs[|txs| - 1]);
      if r.Pass? then r.ctx else before
  }

  /** The txs with the given verdict property, in order. */
  function Select(txs: seq<CosmosTx>, vs: seq<Verdict>, p: Verdict -> bool): (r: seq<CosmosTx>)
    requires |vs| == |txs|
    ensures |r| <= |txs|
  {
    if txs == [] then []
    else
      var n := |txs| - 1;
      Select(txs[..n], vs[..n], p) + if p(vs[n]) then [txs[n]] else []
  }

  function KeptTxs(txs: seq<CosmosTx>, vs: seq<Verdict>): seq<CosmosTx>
    requires |vs| == |txs|
  {
    Select(txs, vs, (v: Verdict) => v == Kept)
  }

  function RemovedTxs(txs: seq<CosmosTx>, vs: seq<Verdict>): seq<CosmosTx>
    requires |vs| == |txs|
  {
    Select(txs, vs, Removes)
  }

  /** The verdict on tx, coming after txs that were judged vs. */
  ghost function Judge(ante: Ante, base: Ctx, txs: seq<CosmosTx>, vs: seq<Verdict>, tx: CosmosTx): Verdict
    requires |vs| == |txs|
  {
    if tx.signers.None? then Unreadable
    else if IsDoomed(txs, vs, tx) then Doomed
    else
      match ante(Fold(ante, base, KeptTxs(txs, vs)), tx)
      case Pass(_) => Kept
      case WrongSequence => Stale
      case Rejected => Failed
  }

  /** The verdicts of a recheck over the list: each is Judge's on what came before it. */
  ghost function Verdicts(ante: Ante, base: Ctx, txs: seq<CosmosTx>): (vs: seq<Verdict>)
    ensures |vs| == |txs|
  {
    if txs == [] then []
    else
      var front := txs[..|txs| - 1];
      var vs := Verdicts(ante, base, front);
      vs + [Judge(ante, base, front, vs, txs[|txs| - 1])]
  }

  lemma {:induction false} VerdictsOfPrefix(ante: Ante, base: Ctx, txs: seq<CosmosTx>, n: nat)
    requires n <= |txs|
    ensures Verdicts(ante, base, txs)[..n] == Verdicts(ante, base, txs[..n])
  {
    if n == |txs| {
      assert txs[..n] == txs;
    } else {
      VerdictsOfPrefix(ante, base, txs[..|txs| - 1], n);
      assert txs[..|txs| - 1][..n] == txs[..n];
    }
  }

  lemma VerdictIsJudged(ante: Ante, base: Ctx, txs: seq<CosmosTx>, i: nat)
    requires i < |txs|
    ensures Verdicts(ante, base, txs)[i] == Judge(ante, base, txs[..i], Verdicts(ante, base, txs[..i]), txs[i])
  {
    VerdictsOfPrefix(ante, base, txs, i + 1);
    assert txs[..i + 1][..i] == txs[..i];
  }

  /** Some evicted tx before position i was signed, at a lower sequence, by one of the signers. */
  ghost predicate FollowsEvicted(txs: seq<CosmosTx>, vs: seq<Verdict>, i: nat, signers: seq<Signer>)
    requires |vs| == |txs| && i <= |txs|
  {
    exists k, j :: 0 <= k < |signers| && 0 <= j < i && (vs[j] == Failed || vs[j] == Doomed)
                   && SignsBelow(SignersOf(txs[j]), signers[k].account, signers[k].sequence)
  }

  lemma DoomedIff(txs: seq<CosmosTx>, vs: seq<Verdict>, i: nat)
    requires |vs| == |txs| && i < |txs|
    ensures IsDoomed(txs[..i], vs[..i], txs[i]) <==> FollowsEvicted(txs, vs, i, SignersOf(txs[i]))
  {
    hide SignsBelow, SignersOf;
    var signers, prefix := SignersOf(txs[i]), txs[..i];
    if IsDoomed(prefix, vs[..i], txs[i]) {
      var k :| 0 <= k < |signers| && FailedBelow(prefix, vs[..i], signers[k].account, signers[k].sequence);
      var j :| 0 <= j < i && Evicting(vs[..i][j]) &&
        SignsBelow(SignersOf(prefix[j]), signers[k].account, signers[k].sequence);
      assert vs[..i][j] == vs[j] && prefix[j] == txs[j];
    }
    if FollowsEvicted(txs, vs, i, signers) {
      var k, j :| 0 <= k < |signers| && 0 <= j < i && (vs[j] == Failed || vs[j] == Doomed)
                  && SignsBelow(SignersOf(txs[j]), signers[k].account, signers[k].sequence);
      assert vs[..i][j] == vs[j] && prefix[j] == txs[j];
      assert FailedBelow(prefix, vs[..i], signers[k].account, signers[k].sequence);
    }
  }

  /**
   * A tx with readable signers is removed exactly when the ante handler refuses it on top of the
   * survivors before it, or one of its signers failed earlier at a lower sequence; only a failure
   * other than a wrong sequence, and what it dooms, counts as such.
   */
  lemma RemovedIff(ante: Ante, base: Ctx, txs: seq<CosmosTx>, i: nat)
    requires i < |txs| && txs[i].signers.Some?
    ensures var vs := Verdicts(ante, base, txs);
            var survivors := KeptTxs(txs[..i], vs[..i]);
            && (vs[i] == Doomed <==> FollowsEvicted(txs, vs, i, SignersOf(txs[i])))
            && (vs[i] != Doomed ==> (Removes(vs[i]) <==> !ante(Fold(ante, base, survivors), txs[i]).Pass?))
            && (vs[i] != Doomed ==> (vs[i] == Kept <==> ante(Fold(ante, base, survivors), txs[i]).Pass?))
  {
    hide Verdicts, IsDoomed, FollowsEvicted, Fold, KeptTxs;
    VerdictIsJudged(ante, base, txs, i);
    VerdictsOfPrefix(ante, base, txs, i);
    DoomedIff(txs, Verdicts(ante, base, txs), i);
  }

  // --- The same, said on the ante handler's answers alone ---

  /** A signer of the later tx signed the earlier one at a lower sequence. */
  ghost predicate SignedEarlier(earlier: CosmosTx, later: CosmosTx) {
    && earlier.signers.Some? && later.signers.Some?
    && exists l, k ::
         && 0 <= l < |earlier.signers.value| && 0 <= k < |later.signers.value|
         && earlier.signers.value[l].account == later.signers.value[k].account
         && earlier.signers.value[l].sequence < later.signers.value[k].sequence
  }

  /** The context after running the ante handler over the txs, one after the other. */
  ghost function Replay(ante: Ante, ctx: Ctx, txs: seq<CosmosTx>): Ctx
    decreases |txs|
  {
    if txs == [] then ctx
    else
      var r := ante(ctx, txs[0]);
      Replay(ante, if r.Pass? then r.ctx else ctx, txs[1..])
  }

  lemma {:induction false} ReplayOneMore(ante: Ante, ctx: Ctx, txs: seq<CosmosTx>, tx: CosmosTx)
    ensures var before := Replay(ante, ctx, txs);
            var r := ante(before, tx);
            Replay(ante, ctx, txs + [tx]) == if r.Pass? then r.ctx else before
    decreases |txs|
  {
    if txs == [] {
      assert [] + [tx] == [tx];
    } else {
      var r := ante(ctx, txs[0]);
      ReplayOneMore(ante, if r.Pass? then r.ctx else ctx, txs[1..], tx);
      assert (txs + [tx])[1..] == txs[1..] + [tx];
    }
  }

  lemma {:induction false} FoldIsReplay(ante: Ante, base: Ctx, txs: seq<CosmosTx>)
    ensures Fold(ante, base, txs) == Replay(ante, base, txs)
  {
    if txs != [] {
      var n := |txs| - 1;
      FoldIsReplay(ante, base, txs[..n]);
      ReplayOneMore(ante, base, txs[..n], txs[n]);
      assert txs == txs[..n] + [txs[n]];
    }
  }

  /** Of the first n txs those that stay, in order. */
  ghost function Stayed(ante: Ante, base: Ctx, txs: seq<CosmosTx>, n: nat): seq<CosmosTx>
    requires n <= |txs|
    decreases n, 0
  {
    if n == 0 then []
    else Stayed(ante, base, txs, n - 1) + if Stays(ante, base, txs, n - 1) then [txs[n - 1]] else []
  }

  /** What the ante handler says to tx i on top of the txs before it that stay. */
  ghost function Answer(ante: Ante, base: Ctx, txs: seq<CosmosTx>, i: nat): AnteResult
    requires i < |txs|
    decreases i, 1
  {
    ante(Replay(ante, base, Stayed(ante, base, txs, i)), txs[i])
  }

  /** A tx before it, signed by one of its signers at a lower sequence, was rejected or itself ruined. */
  ghost predicate Ruined(ante: Ante, base: Ctx, txs: seq<CosmosTx>, i: nat)
    requires i < |txs|
    decreases i, 2
  {
    exists j :: 0 <= j < i && Ruins(ante, base, txs, j) && SignedEarlier(txs[j], txs[i])
  }

  ghost predicate Ruins(ante: Ante, base: Ctx, txs: seq<CosmosTx>, i: nat)
    requires i < |txs|
    decreases i, 3
  {
    txs[i].signers.Some? && (Ruined(ante, base, txs, i) || Answer(ante, base, txs, i) == Rejected)
  }

  ghost predicate Stays(ante: Ante, base: Ctx, txs: seq<CosmosTx>, i: nat)
    requires i < |txs|
    decreases i, 3
  {
    txs[i].signers.Some? && !Ruined(ante, base, txs, i) && Answer(ante, base, txs, i).Pass?
  }

  lemma SignedEarlierIff(earlier: CosmosTx, later: CosmosTx)
    ensures SignedEarlier(earlier, later) <==>
              exists k :: 0 <= k < |SignersOf(later)|
                          && SignsBelow(SignersOf(earlier), SignersOf(later)[k].account, SignersOf(later)[k].sequence)
  {
    var e, f := SignersOf(earlier), SignersOf(later);
    if SignedEarlier(earlier, later) {
      var l, k :| 0 <= l < |e| && 0 <= k < |f| && e[l].account == f[k].account && e[l].sequence < f[k].sequence;
      assert SignsBelow(e, f[k].account, f[k].sequence);
    }
    if k :| 0 <= k < |f| && SignsBelow(e, f[k].account, f[k].sequence) {
      var l :| 0 <= l < |e| && e[l].account == f[k].account && e[l].sequence < f[k].sequence;
    }
  }

  lemma EvictedIsRuined(ante: Ante, base: Ctx, txs: seq<CosmosTx>, vs: seq<Verdict>, i: nat)
    requires |vs| == |txs| && i < |txs|
    requires forall j :: 0 <= j < i ==> (Evicting(vs[j]) <==> Ruins(ante, base, txs, j))
    ensures FollowsEvicted(txs, vs, i, SignersOf(txs[i])) <==> Ruined(ante, base, txs, i)
  {
    hide SignsBelow, SignedEarlier, SignersOf, Ruins;
    var own := SignersOf(txs[i]);
    forall j | 0 <= j < i
      ensures SignedEarlier(txs[j], txs[i]) <==>
                exists k :: 0 <= k < |own| && SignsBelow(SignersOf(txs[j]), own[k].account, own[k].sequence)
    {
      SignedEarlierIff(txs[j], txs[i]);
    }
    assert forall j :: 0 <= j < i ==> (Evicting(vs[j]) <==> vs[j] == Failed || vs[j] == Doomed);
  }

  lemma KeptOneMore(txs: seq<CosmosTx>, vs: seq<Verdict>, i: nat)
    requires |vs| == |txs| && i < |txs|
    ensures KeptTxs(txs[..i + 1], vs[..i + 1])
            == KeptTxs(txs[..i], vs[..i]) + if vs[i] == Kept then [txs[i]] else []
  {
    assert txs[..i + 1][..i] == txs[..i] && vs[..i + 1][..i] == vs[..i];
  }

  /** The verdict at i, when those before it are what the answers say. */
  lemma VerdictIsAnswer(ante: Ante, base: Ctx, txs: seq<CosmosTx>, i: nat)
    requires i < |txs|
    requires var vs := Verdicts(ante, base, txs);
             && KeptTxs(txs[..i], vs[..i]) == Stayed(ante, base, txs, i)
             && forall j :: 0 <= j < i ==> (Evicting(vs[j]) <==> Ruins(ante, base, txs, j))
    ensures var v := Verdicts(ante, base, txs)[i];
            && (v == Kept <==> Stays(ante, base, txs, i))
            && (Evicting(v) <==> Ruins(ante, base, txs, i))
            && (Removes(v) <==> txs[i].signers.Some? && !Stays(ante, base, txs, i))
  {
    hide Verdicts, Fold, Replay, Ruined, FollowsEvicted, IsDoomed, KeptTxs, Stayed;
    var vs := Verdicts(ante, base, txs);
    FoldIsReplay(ante, base, Stayed(ante, base, txs, i));
    VerdictIsJudged(ante, base, txs, i);
    VerdictsOfPrefix(ante, base, txs, i);
    DoomedIff(txs, vs, i);
    EvictedIsRuined(ante, base, txs, vs, i);
  }

  /** The verdicts are what the answers say: which txs stay, which are removed, which ruin later ones. */
  lemma {:induction false} VerdictsAreAnswers(ante: Ante, base: Ctx, txs: seq<CosmosTx>, n: nat)
    requires n <= |txs|
    ensures var vs := Verdicts(ante, base, txs);
            && KeptTxs(txs[..n], vs[..n]) == Stayed(ante, base, txs, n)
            && forall i :: 0 <= i < n ==>
                 && (vs[i] == Kept <==> Stays(ante, base, txs, i))
                 && (Evicting(vs[i]) <==> Ruins(ante, base, txs, i))
                 && (Removes(vs[i]) <==> txs[i].signers.Some? && !Stays(ante, base, txs, i))
  {
    if n > 0 {
      hide Verdicts, Stays, Ruins, KeptTxs, Evicting, Removes;
      var i := n - 1;
      VerdictsAreAnswers(ante, base, txs, i);
      VerdictIsAnswer(ante, base, txs, i);
      KeptOneMore(txs, Verdicts(ante, base, txs), i);
    } else {
      assert txs[..0] == [] && Verdicts(ante, base, txs)[..0] == [];
    }
  }

  /** Wrong sequences before it doom nobody: without a rejected or ruined earlier tx its own answer decides. */
  lemma WrongSequenceDoomsNobody(ante: Ante, base: Ctx, txs: seq<CosmosTx>, i: nat)
    requires i < |txs| && txs[i].signers.Some?
    requires forall j :: 0 <= j < i && SignedEarlier(txs[j], txs[i]) ==>
               Answer(ante, base, txs, j) != Rejected && !Ruined(ante, base, txs, j)
    ensures var v := Verdicts(ante, base, txs)[i];
            && (Removes(v) <==> !Answer(ante, base, txs, i).Pass?)
            && (v == Kept <==> Answer(ante, base, txs, i).Pass?)
  {
    hide Verdicts, SignedEarlier, Answer;
    VerdictsAreAnswers(ante, base, txs, |txs|);
    assert !Ruined(ante, base, txs, i) by {
      assert forall j :: 0 <= j < i && Ruins(ante, base, txs, j) ==> !SignedEarlier(txs[j], txs[i]);
    }
  }

  /** The smallest case: after a stale tx the signer's next one stays, after a rejected one it goes. */
  lemma NextOfTheSigner(ante: Ante, base: Ctx, a: CosmosTx, b: CosmosTx)
    requires a.signers.Some? && SignedEarlier(a, b) && ante(base, b).Pass?
    ensures ante(base, a) == WrongSequence ==> Verdicts(ante, base, [a, b]) == [Stale, Kept]
    ensures ante(base, a) == Rejected ==> Verdicts(ante, base, [a, b]) == [Failed, Doomed]
  {
    var txs := [a, b];
    assert txs[0] == a && txs[1] == b && txs[..1] == [a] && txs[..0] == [];
    VerdictIsJudged(ante, base, txs, 0);
    VerdictIsJudged(ante, base, txs, 1);
    assert Verdicts(ante, base, []) == [];
    VerdictIsJudged(ante, base, [a], 0);
    assert [a][..0] == [];
    SignedEarlierIff(a, b);
    var va := Verdicts(ante, base, [a])[0];
    assert Verdicts(ante, base, [a]) == [va];
    FailedBelowIff(a, va, b);
    SelectOneMore([], [], a, va, (w: Verdict) => w == Kept);
    assert [] + [a] == [a] && [] + [va] == [va];
  }

  lemma FailedBelowIff(a: CosmosTx, v: Verdict, b: CosmosTx)
    ensures IsDoomed([a], [v], b) <==> Evicting(v) && SignedEarlier(a, b)
  {
    hide SignedEarlier, SignsBelow;
    SignedEarlierIff(a, b);
    assert [a][0] == a && [v][0] == v;
    if Evicting(v) && SignedEarlier(a, b) {
      var k :| 0 <= k < |SignersOf(b)|
               && SignsBelow(SignersOf(a), SignersOf(b)[k].account, SignersOf(b)[k].sequence);
      assert FailedBelow([a], [v], SignersOf(b)[k].account, SignersOf(b)[k].sequence);
    }
  }

  // --- The loop of runRecheck ---

  /** failedAtSequence says the account failed at a lower sequence. */
  predicate FailedIn(failed: map<Account, nat>, a: Account, q: nat) { a in failed && failed[a] < q }

  /** failedAtSequence answers exactly "did this account fail at a lower sequence". */
  ghost predicate Tracks(failed: map<Account, nat>, txs: seq<CosmosTx>, vs: seq<Verdict>)
    requires |vs| == |txs|
  {
    forall a, q: nat :: FailedIn(failed, a, q) <==> FailedBelow(txs, vs, a, q)
  }

  /** The scan over the signers: did one of them fail earlier at a lower sequence? */
  method AnySignerFailed(failed: map<Account, nat>, signers: seq<Signer>) returns (invalid: bool)
    ensures invalid <==> exists k :: 0 <= k < |signers| && FailedIn(failed, signers[k].account, signers[k].sequence)
  {
    for i := 0 to |signers|
      invariant forall k :: 0 <= k < i ==> !FailedIn(failed, signers[k].account, signers[k].sequence)
    {
      if signers[i].account in failed && failed[signers[i].account] < signers[i].sequence {
        assert FailedIn(failed, signers[i].account, signers[i].sequence);
        return true;
      }
    }
    return false;
  }

  /** Recording a failure: each signer's lowest failed sequence. */
  method MarkFailed(failed: map<Account, nat>, signers: seq<Signer>) returns (r: map<Account, nat>)
    ensures forall a, q: nat :: FailedIn(r, a, q) <==> FailedIn(failed, a, q) || SignsBelow(signers, a, q)
  {
    r := failed;
    for i := 0 to |signers|
      invariant forall a, q: nat :: FailedIn(r, a, q) <==> FailedIn(failed, a, q) || SignsBelow(signers[..i], a, q)
    {
      var s := signers[i];
      ghost var before := r;
      if s.account !in r || r[s.account] > s.sequence {
        r := r[s.account := s.sequence];
      }
      forall a, q: nat
        ensures FailedIn(r, a, q) <==> FailedIn(failed, a, q) || SignsBelow(signers[..i + 1], a, q)
      {
        SignsBelowOneMore(signers, i, a, q);
        assert FailedIn(r, a, q) <==> FailedIn(before, a, q) || (s.account == a && s.sequence < q);
      }
    }
    assert signers[..|signers|] == signers;
  }

  lemma SignsBelowOneMore(signers: seq<Signer>, i: nat, a: Account, q: nat)
    requires i < |signers|
    ensures SignsBelow(signers[..i + 1], a, q) <==>
            SignsBelow(signers[..i], a, q) || (signers[i].account == a && signers[i].sequence < q)
  {
    assert forall k :: 0 <= k < i ==> signers[..i + 1][k] == signers[..i][k];
    assert signers[..i + 1][i] == signers[i];
  }

  lemma FailedBelowOneMore(txs: seq<CosmosTx>, vs: seq<Verdict>, tx: CosmosTx, v: Verdict, a: Account, q: nat)
    requires |vs| == |txs|
    ensures FailedBelow(txs + [tx], vs + [v], a, q) <==>
              FailedBelow(txs, vs, a, q) || (Evicting(v) && SignsBelow(SignersOf(tx), a, q))
  {
    var ts, ws := txs + [tx], vs + [v];
    assert forall j :: 0 <= j < |txs| ==> ts[j] == txs[j] && ws[j] == vs[j];
    assert ts[|txs|] == tx && ws[|txs|] == v;
  }

  /** Everything the loop of runRecheck carries from one tx to the next. */
  datatype Progress = Progress(ctx: Ctx, failed: map<Account, nat>, kept: seq<CosmosTx>, removed: seq<CosmosTx>)

  /** The progress matches the verdicts on the txs seen so far. */
  ghost predicate Follows(p: Progress, ante: Ante, base: Ctx, txs: seq<CosmosTx>) {
    var vs := Verdicts(ante, base, txs);
    && Tracks(p.failed, txs, vs)
    && p.kept == KeptTxs(txs, vs)
    && p.removed == RemovedTxs(txs, vs)
    && p.ctx == Fold(ante, base, p.kept)
  }

  lemma SelectOneMore(txs: seq<CosmosTx>, vs: seq<Verdict>, tx: CosmosTx, v: Verdict, p: Verdict -> bool)
    requires |vs| == |txs|
    ensures Select(txs + [tx], vs + [v], p) == Select(txs, vs, p) + if p(v) then [tx] else []
  {
    assert (txs + [tx])[..|txs|] == txs && (vs + [v])[..|vs|] == vs;
  }

  /** What one more tx with verdict v does to the progress. */
  lemma FollowsOneMore(p: Progress, ante: Ante, base: Ctx, txs: seq<CosmosTx>, tx: CosmosTx, v: Verdict, p': Progress)
    requires Follows(p, ante, base, txs)
    requires v == Judge(ante, base, txs, Verdicts(ante, base, txs), tx)
    requires p'.kept == p.kept + (if v == Kept then [tx] else [])
    requires p'.removed == p.removed + (if Removes(v) then [tx] else [])
    requires v == Kept ==> ante(p.ctx, tx) == Pass(p'.ctx)
    requires v != Kept ==> p'.ctx == p.ctx
    requires forall a, q: nat :: FailedIn(p'.failed, a, q) <==>
             FailedIn(p.failed, a, q) || (Evicting(v) && SignsBelow(SignersOf(tx), a, q))
    ensures Follows(p', ante, base, txs + [tx])
  {
    var vs := Verdicts(ante, base, txs);
    assert (txs + [tx])[..|txs|] == txs;
    assert Verdicts(ante, base, txs + [tx]) == vs + [v];
    forall a, q: nat
      ensures FailedIn(p'.failed, a, q) <==> FailedBelow(txs + [tx], vs + [v], a, q)
    {
      FailedBelowOneMore(txs, vs, tx, v, a, q);
    }
    SelectOneMore(txs, vs, tx, v, (w: Verdict) => w == Kept);
    SelectOneMore(txs, vs, tx, v, Removes);
    if v == Kept {
      assert (p.kept + [tx])[..|p.kept|] == p.kept;
    } else {
      assert p.kept + [] == p.kept;
    }
  }

  /** The scan result is IsDoomed. */
  lemma ScanIsDoomed(failed: map<Account, nat>, txs: seq<CosmosTx>, vs: seq<Verdict>, tx: CosmosTx)
    requires |vs| == |txs| && Tracks(failed, txs, vs) && tx.signers.Some?
    ensures IsDoomed(txs, vs, tx) <==>
              exists k :: 0 <= k < |SignersOf(tx)| &&
                FailedIn(failed, SignersOf(tx)[k].account, SignersOf(tx)[k].sequence)
  {
  }

  /** The body of the loop: one tx. */
  method RecheckOne(p: Progress, ante: Ante, ghost base: Ctx, ghost txs: seq<CosmosTx>, tx: CosmosTx)
    returns (p': Progress)
    requires Follows(p, ante, base, txs)
    ensures Follows(p', ante, base, txs + [tx])
  {
    hide Verdicts, Fold, Select;
    p' := p;
    ghost var v := Judge(ante, base, txs, Verdicts(ante, base, txs), tx);
    if tx.signers.Some? {
      var signers := tx.signers.value;
      var invalidTx := AnySignerFailed(p.failed, signers);
      ScanIsDoomed(p.failed, txs, Verdicts(ante, base, txs), tx);
      assert SignersOf(tx) == signers;
      assert invalidTx <==> IsDoomed(txs, Verdicts(ante, base, txs), tx);
      assert invalidTx <==> v == Doomed;
      var keepFuturesOnError := false;
      if !invalidTx {
        var r := ante(p.ctx, tx);
        assert v == match r case Pass(_) => Kept case WrongSequence => Stale case Rejected => Failed;
        if r.Pass? {
          p' := p.(ctx := r.ctx, kept := p.kept + [tx]);
          assert p.removed + [] == p.removed;
          FollowsOneMore(p, ante, base, txs, tx, v, p');
          return;
        }
        keepFuturesOnError := r == WrongSequence;
      }
      p' := p.(removed := p.removed + [tx]);
      if !keepFuturesOnError {
        var failed := MarkFailed(p.failed, signers);
        p' := p'.(failed := failed);
      }
    }
    assert p.removed + [] == p.removed && p.kept + [] == p.kept;
    FollowsOneMore(p, ante, base, txs, tx, v, p');
  }

  /** When poll number n of the cancel channel finds it closed. */
  predicate CancelledBy(cancelAt: Option<nat>, n: nat) { cancelAt.Some? && cancelAt.value <= n }

  /**
   * The loop of runRecheck over the pool in iteration order; it stops at the first poll that finds the
   * run cancelled.
   */
  method RecheckAll(ante: Ante, base: Ctx, txs: seq<CosmosTx>, cancelAt: Option<nat>)
    returns (p: Progress, cancelled: bool, ghost seen: nat)
    ensures seen <= |txs| && Follows(p, ante, base, txs[..seen])
    ensures cancelled <==> CancelledBy(cancelAt, |txs|)
    ensures !cancelled ==> seen == |txs|
    ensures cancelled ==> seen == cancelAt.value
    ensures p.kept == Stayed(ante, base, txs, seen) && p.ctx == Replay(ante, base, p.kept)
    ensures forall tx :: tx in p.removed <==>
              exists i :: 0 <= i < seen && txs[i] == tx && tx.signers.Some? && !Stays(ante, base, txs, i)
  {
    hide Follows, Stays, Stayed, Replay;
    p := Progress(base, map[], [], []);
    FollowsNothing(p, ante, base);
    assert txs[..0] == [];
    for i := 0 to |txs|
      invariant Follows(p, ante, base, txs[..i])
      invariant cancelAt.Some? ==> cancelAt.value >= i
    {
      if CancelledBy(cancelAt, i) {
        ProgressIsAnswers(p, ante, base, txs, i);
        return p, true, i;
      }
      p := RecheckOne(p, ante, base, txs[..i], txs[i]);
      assert txs[..i] + [txs[i]] == txs[..i + 1];
    }
    ProgressIsAnswers(p, ante, base, txs, |txs|);
    return p, CancelledBy(cancelAt, |txs|), |txs|;
  }

  lemma FollowsNothing(p: Progress, ante: Ante, base: Ctx)
    requires p == Progress(base, map[], [], [])
    ensures Follows(p, ante, base, [])
  {
  }

  // --- The pool ---

  /** The priority-nonce pool tells txs apart by first signer and nonce. */
  type Key = (Account, nat)

  predicate Keyed(tx: CosmosTx) { tx.signers.Some? && tx.signers.value != [] && tx.signers.value[0].nonce.Some? }

  function KeyOf(tx: CosmosTx): Key
    requires Keyed(tx)
  {
    (tx.signers.value[0].account, tx.signers.value[0].nonce.value)
  }

  /** The txs are pooled, each under its own key, and no two share one. */
  ghost predicate Pooled(txs: seq<CosmosTx>, pool: map<Key, CosmosTx>) {
    && (forall i :: 0 <= i < |txs| ==> Keyed(txs[i]) && KeyOf(txs[i]) in pool && pool[KeyOf(txs[i])] == txs[i])
    && (forall i, j :: 0 <= i < j < |txs| ==> KeyOf(txs[i]) != KeyOf(txs[j]))
  }

  /** order lists every pooled tx once. */
  ghost predicate Lists(order: seq<CosmosTx>, pool: map<Key, CosmosTx>) {
    Pooled(order, pool) && forall k | k in pool :: pool[k] in order && Keyed(pool[k]) && KeyOf(pool[k]) == k
  }

  /** The pool without the txs of the list. */
  function Without(pool: map<Key, CosmosTx>, txs: seq<CosmosTx>): map<Key, CosmosTx> {
    if txs == [] then pool
    else
      var tx := txs[|txs| - 1];
      var rest := Without(pool, txs[..|txs| - 1]);
      if Keyed(tx) then rest - {KeyOf(tx)} else rest
  }

  /** The addresses of a tx's signers; how an account name becomes an address is fixed. */
  function Addresses(addressOf: Account -> Address, tx: CosmosTx): (r: seq<Address>)
    ensures |r| == |SignersOf(tx)|
    ensures forall i :: 0 <= i < |r| ==> r[i] == addressOf(SignersOf(tx)[i].account)
  {
    seq(|SignersOf(tx)|, i requires 0 <= i < |SignersOf(tx)| => addressOf(SignersOf(tx)[i].account))
  }

  /** A release whose error is only logged. */
  function ReleaseQuietly(b: Books, id: int, addrs: seq<Address>): Books {
    var r := Released(b, id, true, addrs);
    if r.Some? then r.value else b
  }

  function ReleaseEach(b: Books, id: int, addressOf: Account -> Address, txs: seq<CosmosTx>): Books {
    if txs == [] then b
    else ReleaseQuietly(ReleaseEach(b, id, addressOf, txs[..|txs| - 1]), id, Addresses(addressOf, txs[|txs| - 1]))
  }

  // --- The pool's calls as events of the reservation protocol ---

  function AsProtocolTx(addressOf: Account -> Address, tx: CosmosTx): P.Tx {
    P.Tx(if Keyed(tx) then Some(KeyOf(tx)) else None, Addresses(addressOf, tx))
  }

  function AsProtocolPool(addressOf: Account -> Address, pool: map<Key, CosmosTx>): map<P.Key, P.Tx> {
    map k | k in pool :: AsProtocolTx(addressOf, pool[k])
  }

  /** The protocol's state between two calls: nothing in flight. */
  function AtRest(b: Books, addressOf: Account -> Address, pool: map<Key, CosmosTx>): P.State {
    P.State(b, AsProtocolPool(addressOf, pool), map[], P.Idle, 0)
  }

  /** With no tx and no reservation everything is exact. */
  lemma NothingPooled(addressOf: Account -> Address)
    ensures P.Inv(AtRest(Books(map[], map[], map[]), addressOf, map[]))
  {
    P.AlwaysExact([]);
    assert AsProtocolPool(addressOf, map[]) == map[];
  }

  /** Reserving the signers of tx, as call 0. */
  lemma Reserving(b: Books, addressOf: Account -> Address, pool: map<Key, CosmosTx>, tx: CosmosTx)
    requires P.Inv(AtRest(b, addressOf, pool)) && Held(b, P.COSMOS, true, Addresses(addressOf, tx)).Some?
    ensures var t := AsProtocolTx(addressOf, tx);
            var h := Held(b, P.COSMOS, true, t.signers).value;
            P.Inv(AtRest(h, addressOf, pool).(inflight := map[0 := t]))
  {
    hide P.Inv, Held, Addresses;
    var s, e := AtRest(b, addressOf, pool), P.Reserve(0, AsProtocolTx(addressOf, tx));
    P.StepKeepsInv(s, e);
  }

  /** An Insert that fails after the reservation gives everything back: the release is never refused. */
  lemma RolledBack(b: Books, addressOf: Account -> Address, pool: map<Key, CosmosTx>, tx: CosmosTx)
    requires P.Inv(AtRest(b, addressOf, pool)) && Held(b, P.COSMOS, true, Addresses(addressOf, tx)).Some?
    ensures var h := Held(b, P.COSMOS, true, Addresses(addressOf, tx)).value;
            && Released(h, P.COSMOS, true, Addresses(addressOf, tx)).Some?
            && P.Inv(AtRest(ReleaseQuietly(h, P.COSMOS, Addresses(addressOf, tx)), addressOf, pool))
  {
    hide Held, Released, Addresses, P.Inv;
    Reserving(b, addressOf, pool, tx);
    var t := AsProtocolTx(addressOf, tx);
    var s := AtRest(Held(b, P.COSMOS, true, t.signers).value, addressOf, pool).(inflight := map[0 := t]);
    P.StepKeepsInv(s, P.RollBack(0));
    NothingSwallowed(P.Apply(s, P.RollBack(0)));
    assert map[0 := t] - {0} == map[];
  }

  lemma NothingSwallowed(s: P.State)
    requires P.Inv(s)
    ensures s.swallowed == 0
  {
  }

  /** A successful Insert under a new key. */
  lemma Committed(b: Books, addressOf: Account -> Address, pool: map<Key, CosmosTx>, tx: CosmosTx)
    requires P.Inv(AtRest(b, addressOf, pool)) && Held(b, P.COSMOS, true, Addresses(addressOf, tx)).Some?
    requires Keyed(tx) && KeyOf(tx) !in pool
    ensures P.Inv(AtRest(Held(b, P.COSMOS, true, Addresses(addressOf, tx)).value, addressOf, pool[KeyOf(tx) := tx]))
  {
    hide Held, Addresses, P.Inv;
    Reserving(b, addressOf, pool, tx);
    var t := AsProtocolTx(addressOf, tx);
    var h := Held(b, P.COSMOS, true, t.signers).value;
    var s := AtRest(h, addressOf, pool).(inflight := map[0 := t]);
    P.StepKeepsInv(s, P.Commit(0));
    assert map[0 := t] - {0} == map[];
    assert AsProtocolPool(addressOf, pool[KeyOf(tx) := tx]) == AsProtocolPool(addressOf, pool)[KeyOf(tx) := t];
    assert P.Apply(s, P.Commit(0)) == AtRest(h, addressOf, pool[KeyOf(tx) := tx]);
  }

  /** A successful Insert under a taken key: the old tx's signers are released, without error. */
  lemma Replaced(b: Books, addressOf: Account -> Address, pool: map<Key, CosmosTx>, tx: CosmosTx)
    requires P.Inv(AtRest(b, addressOf, pool)) && Held(b, P.COSMOS, true, Addresses(addressOf, tx)).Some?
    requires Keyed(tx) && KeyOf(tx) in pool
    ensures var h := Held(b, P.COSMOS, true, Addresses(addressOf, tx)).value;
            var replaced := Addresses(addressOf, pool[KeyOf(tx)]);
            && Released(h, P.COSMOS, true, replaced).Some?
            && P.Inv(AtRest(ReleaseQuietly(h, P.COSMOS, replaced), addressOf, pool[KeyOf(tx) := tx]))
  {
    hide Held, Released, Addresses, P.Inv;
    Reserving(b, addressOf, pool, tx);
    var t := AsProtocolTx(addressOf, tx);
    var h := Held(b, P.COSMOS, true, t.signers).value;
    var s := AtRest(h, addressOf, pool).(inflight := map[0 := t]);
    P.StepKeepsInv(s, P.BeginReplace(0));
    var mid := P.Apply(s, P.BeginReplace(0));
    NothingSwallowed(mid);
    P.StepKeepsInv(mid, P.FinishReplace);
    assert map[0 := t] - {0} == map[];
    assert AsProtocolPool(addressOf, pool[KeyOf(tx) := tx]) == AsProtocolPool(addressOf, pool)[KeyOf(tx) := t];
  }

  /** One removal of the recheck. */
  lemma RemovedOne(b: Books, addressOf: Account -> Address, pool: map<Key, CosmosTx>, tx: CosmosTx)
    requires P.Inv(AtRest(b, addressOf, pool)) && Keyed(tx) && KeyOf(tx) in pool && pool[KeyOf(tx)] == tx
    ensures Released(b, P.COSMOS, true, Addresses(addressOf, tx)).Some?
    ensures P.Inv(AtRest(ReleaseQuietly(b, P.COSMOS, Addresses(addressOf, tx)), addressOf, pool - {KeyOf(tx)}))
  {
    hide Released, Addresses, P.Inv;
    var s := AtRest(b, addressOf, pool);
    P.StepKeepsInv(s, P.BeginRemove(KeyOf(tx)));
    var mid := P.Apply(s, P.BeginRemove(KeyOf(tx)));
    P.StepKeepsInv(mid, P.FinishRemove);
    NothingSwallowed(P.Apply(mid, P.FinishRemove));
    assert AsProtocolPool(addressOf, pool - {KeyOf(tx)}) == AsProtocolPool(addressOf, pool) - {KeyOf(tx)};
  }

  /** Removing pooled txs one by one keeps every count exact. */
  lemma {:induction false} RemovedEach(b: Books, addressOf: Account -> Address, pool: map<Key, CosmosTx>,
                                       txs: seq<CosmosTx>)
    requires P.Inv(AtRest(b, addressOf, pool)) && Pooled(txs, pool)
    ensures P.Inv(AtRest(ReleaseEach(b, P.COSMOS, addressOf, txs), addressOf, Without(pool, txs)))
  {
    hide Released, Addresses, P.Inv;
    if txs != [] {
      var n := |txs| - 1;
      RemovedEach(b, addressOf, pool, txs[..n]);
      WithoutOthers(pool, txs[..n], KeyOf(txs[n]));
      RemovedOne(ReleaseEach(b, P.COSMOS, addressOf, txs[..n]), addressOf, Without(pool, txs[..n]), txs[n]);
    }
  }

  lemma {:induction false} WithoutOthers(pool: map<Key, CosmosTx>, txs: seq<CosmosTx>, k: Key)
    requires k in pool && forall i :: 0 <= i < |txs| ==> Keyed(txs[i]) && KeyOf(txs[i]) != k
    ensures k in Without(pool, txs) && Without(pool, txs)[k] == pool[k]
  {
    if txs != [] { WithoutOthers(pool, txs[..|txs| - 1], k); }
  }

  lemma {:induction false} SelectedArePooled(txs: seq<CosmosTx>, vs: seq<Verdict>, p: Verdict -> bool,
                                             pool: map<Key, CosmosTx>)
    requires |vs| == |txs| && Pooled(txs, pool)
    ensures Pooled(Select(txs, vs, p), pool)
    ensures forall i :: 0 <= i < |Select(txs, vs, p)| ==> Select(txs, vs, p)[i] in txs
  {
    if txs != [] {
      var n := |txs| - 1;
      assert Pooled(txs[..n], pool);
      SelectedArePooled(txs[..n], vs[..n], p, pool);
      var front, all := Select(txs[..n], vs[..n], p), Select(txs, vs, p);
      forall i | 0 <= i < |front| ensures KeyOf(front[i]) != KeyOf(txs[n]) && front[i] in txs {
        assert front[i] in txs[..n];
        var j :| 0 <= j < n && txs[..n][j] == front[i];
        assert txs[j] == front[i];
      }
    }
  }

  // --- What exact reservations mean for the signers' accounts ---

  /** The places where an account of address a signs a pooled tx. */
  ghost function Mentions(addressOf: Account -> Address, pool: map<Key, CosmosTx>, a: Address): set<(Key, nat)> {
    set k, i: nat | k in pool && pool[k].signers.Some? && i < |pool[k].signers.value|
                    && addressOf(pool[k].signers.value[i].account) == a :: (k, i)
  }

  /** The address of every signer of every pooled tx belongs to id, and is counted once per place it signs at. */
  ghost predicate SignersOwned(b: Books, id: int, addressOf: Account -> Address, pool: map<Key, CosmosTx>) {
    && (forall k, i :: k in pool && pool[k].signers.Some? && 0 <= i < |pool[k].signers.value| ==>
          var a := addressOf(pool[k].signers.value[i].account);
          a in b.accounts && b.accounts[a] == id)
    && (forall a :: Refs(b, a) == |Mentions(addressOf, pool, a)|)
  }

  lemma {:induction false} PlacesCount(k: Key, addrs: seq<Address>, a: Address)
    ensures |set i: nat | i < |addrs| && addrs[i] == a :: (k, i)| == multiset(addrs)[a]
  {
    var places := set i: nat | i < |addrs| && addrs[i] == a :: (k, i);
    if addrs == [] {
      assert places == {};
    } else {
      var n := |addrs| - 1;
      var front := addrs[..n];
      PlacesCount(k, front, a);
      var before := set i: nat | i < |front| && front[i] == a :: (k, i);
      assert addrs == front + [addrs[n]];
      if addrs[n] == a {
        assert places == before + {(k, n)};
      } else {
        assert places == before;
      }
    }
  }

  lemma MentionedIff(addressOf: Account -> Address, pool: map<Key, CosmosTx>, a: Address, k: Key, i: nat)
    ensures (k, i) in Mentions(addressOf, pool, a) <==>
              k in pool && i < |Addresses(addressOf, pool[k])| && Addresses(addressOf, pool[k])[i] == a
  {
  }

  lemma MentionsSplit(addressOf: Account -> Address, pool: map<Key, CosmosTx>, k: Key, a: Address)
    requires k in pool
    ensures |Mentions(addressOf, pool, a)|
            == |Mentions(addressOf, pool - {k}, a)| + multiset(Addresses(addressOf, pool[k]))[a]
  {
    hide Mentions, Addresses;
    var addrs := Addresses(addressOf, pool[k]);
    var own := set i: nat | i < |addrs| && addrs[i] == a :: (k, i);
    PlacesCount(k, addrs, a);
    var all, rest := Mentions(addressOf, pool, a), Mentions(addressOf, pool - {k}, a);
    forall p: (Key, nat) ensures (p in all <==> p in rest || p in own) && !(p in rest && p in own) {
      MentionedIff(addressOf, pool, a, p.0, p.1);
      MentionedIff(addressOf, pool - {k}, a, p.0, p.1);
      assert p == (p.0, p.1);
    }
    assert all == rest + own && rest !! own;
  }

  /** The protocol's count of an address is the number of places it signs at. */
  lemma {:induction false} CountIsMentions(addressOf: Account -> Address, pool: map<Key, CosmosTx>, a: Address)
    ensures Count(P.Holdings(AsProtocolPool(addressOf, pool)), a) == |Mentions(addressOf, pool, a)|
    decreases |pool|
  {
    hide Mentions, Count;
    if pool == map[] {
      NoMentions(addressOf, a);
      assert P.Holdings(AsProtocolPool(addressOf, pool)) == map[];
    } else {
      var k :| k in pool;
      var all := P.Holdings(AsProtocolPool(addressOf, pool));
      CountIsMentions(addressOf, pool - {k}, a);
      MentionsSplit(addressOf, pool, k, a);
      CountWithout(all, k, a);
      assert all - {k} == P.Holdings(AsProtocolPool(addressOf, pool - {k}));
    }
  }

  lemma NoMentions(addressOf: Account -> Address, a: Address)
    ensures Mentions(addressOf, map[], a) == {} && Count<Key>(map[], a) == 0
  {
  }

  /** Exact reservations own every signer of every pooled tx and count it place by place. */
  lemma ExactOwnsSigners(b: Books, addressOf: Account -> Address, pool: map<Key, CosmosTx>)
    requires P.Inv(AtRest(b, addressOf, pool))
    ensures SignersOwned(b, P.COSMOS, addressOf, pool)
  {
    hide Mentions, Count;
    var s := AtRest(b, addressOf, pool);
    forall a ensures Refs(b, a) == |Mentions(addressOf, pool, a)| {
      assert Refs(s.books, a) == P.Holders(s, a);
      CountIsMentions(addressOf, pool, a);
      NoMentions(addressOf, a);
      assert P.Holdings(s.inflight) == map[];
      NothingCounted(a);
    }
    forall k, i | k in pool && pool[k].signers.Some? && 0 <= i < |pool[k].signers.value|
      ensures var a := addressOf(pool[k].signers.value[i].account); a in b.accounts && b.accounts[a] == P.COSMOS
    {
      var a := addressOf(pool[k].signers.value[i].account);
      MentionedAt(addressOf, pool, k, i);
      assert Refs(b, a) == |Mentions(addressOf, pool, a)| > 0;
      assert a in b.refs;
    }
  }

  lemma NothingCounted(a: Address)
    ensures Count<nat>(map[], a) == 0
  {
  }

  lemma MentionedAt(addressOf: Account -> Address, pool: map<Key, CosmosTx>, k: Key, i: nat)
    requires k in pool && pool[k].signers.Some? && i < |pool[k].signers.value|
    ensures |Mentions(addressOf, pool, addressOf(pool[k].signers.value[i].account))| > 0
  {
    assert (k, i) in Mentions(addressOf, pool, addressOf(pool[k].signers.value[i].account));
  }

  /** No other subpool can hold the address of an account that signs a pooled tx. */
  lemma SignersCannotBeTaken(b: Books, id: int, addressOf: Account -> Address, pool: map<Key, CosmosTx>, k: Key, i: nat,
                             other: int, addrs: seq<Address>)
    requires SignersOwned(b, id, addressOf, pool) && other != id
    requires k in pool && pool[k].signers.Some? && i < |pool[k].signers.value|
    requires addressOf(pool[k].signers.value[i].account) in addrs
    ensures Held(b, other, false, addrs).None?
  {
    var a := addressOf(pool[k].signers.value[i].account);
    var j :| 0 <= j < |addrs| && addrs[j] == a;
    assert !CanHold(b, other, addrs[j]);
  }

  datatype InsertResult = Inserted | NoSigners | AddressTaken | NoContext | AnteFailed | PoolRefused

  class RecheckMempool {
    const ante: Ante
    const addressOf: Account -> Address
    const reserver: ReservationHandle
    /** The rechecker's stored context; None before the first Update. */
    var ctx: Option<Ctx>
    var pool: map<Key, CosmosTx>
    /** The txs marked rechecked or inserted at the current height. */
    var recheckedTxs: S.CosmosTxStore
    /** The length of the signers' addresses. */
    ghost const len: nat

    ghost function Reservations(): P.State
      reads this, reserver, reserver.tracker
    {
      AtRest(reserver.State(), addressOf, pool)
    }

    /** The reservations are exactly those of the pooled txs. */
    ghost predicate Exact()
      reads this, reserver, reserver.tracker
    {
      reserver.id == P.COSMOS && P.Inv(Reservations())
    }

    constructor (ante: Ante, addressOf: Account -> Address, reserver: ReservationHandle, ghost len: nat)
      ensures this.ante == ante && this.addressOf == addressOf && this.reserver == reserver && this.len == len
      ensures ctx == None && pool == map[]
      ensures fresh(recheckedTxs) && recheckedTxs.Valid() && recheckedTxs.len == len && recheckedTxs.txs == map[]
      ensures reserver.id == P.COSMOS && reserver.State() == Books(map[], map[], map[]) ==> Exact()
    {
      this.ante, this.addressOf, this.reserver, this.len := ante, addressOf, reserver, len;
      ctx, pool := None, map[];
      recheckedTxs := new S.CosmosTxStore(len);
      new;
      NothingPooled(addressOf);
    }

    /**
     * Insert: reserve the signers, run the ante handler on a branch of the stored context, offer the
     * tx to the pool, and only then write the branch back and mark the tx. `latest` is the chain's
     * context, None when it cannot be had; `accepts` is whether the priority-nonce pool takes the tx
     * (capacity, custom replacement rule). Any error releases what was reserved and leaves pool and
     * stored state alone.
     */
    method Insert(tx: CosmosTx, latest: Option<Ctx>, accepts: bool) returns (r: InsertResult)
      requires reserver.enableRefCount && recheckedTxs.Valid()
      modifies this`ctx, this`pool, recheckedTxs, reserver, reserver.tracker
      ensures var addrs := Addresses(addressOf, tx);
              var held := Held(old(reserver.State()), reserver.id, true, addrs);
              var start := if old(ctx).Some? then old(ctx) else latest;
              && (r == NoSigners <==> tx.signers.None?)
              && (r == AddressTaken <==> tx.signers.Some? && held.None?)
              && (r in {NoSigners, AddressTaken} ==>
                    reserver.State() == old(reserver.State()) && ctx == old(ctx) && pool == old(pool))
              && (r in {NoContext, AnteFailed, PoolRefused} ==>
                    && held.Some? && reserver.State() == ReleaseQuietly(held.value, reserver.id, addrs)
                    && pool == old(pool) && ctx == start)
              && (r == Inserted ==>
                    && held.Some? && start.Some? && accepts && Keyed(tx)
                    && ante(start.value, tx).Pass? && ctx == Some(ante(start.value, tx).ctx)
                    && pool == old(pool)[(tx.signers.value[0].account, tx.signers.value[0].nonce.value) := tx]
                    && reserver.State() == if KeyOf(tx) in old(pool)
                         then ReleaseQuietly(held.value, reserver.id, Addresses(addressOf, old(pool)[KeyOf(tx)]))
                         else held.value)
      ensures r == NoContext ==> old(ctx).None? && latest.None?
      ensures r == AnteFailed ==>
                var start := if old(ctx).Some? then old(ctx) else latest; start.Some? && !ante(start.value, tx).Pass?
      ensures r == PoolRefused ==> !accepts || !Keyed(tx)
      ensures recheckedTxs.txs == if r == Inserted
                then S.Marked(old(recheckedTxs.txs), tx, old(recheckedTxs.nextUnkeyed)) else old(recheckedTxs.txs)
      ensures S.Regular(tx, recheckedTxs.len) && old(recheckedTxs.nextUnkeyed) + 1 < UINT64_LIMIT ==>
              recheckedTxs.Valid()
      ensures old(Exact()) ==> Exact() && SignersOwned(reserver.State(), reserver.id, addressOf, pool)
    {
      hide Held, HeldAs, ReleaseQuietly, AtRest, SignersOwned, S.Marked, S.StoreInv, S.IsStored, P.Inv, Addresses;
      if old(Exact()) { ExactOwnsSigners(reserver.State(), addressOf, pool); }
      if tx.signers.None? {
        return NoSigners;
      }
      var addrs := Addresses(addressOf, tx);
      ghost var before := reserver.State();
      var ok := reserver.Hold(addrs);
      if !ok {
        return AddressTaken;
      }
      var next;
      r, next := RunAnte(tx, latest);
      if r == Inserted && (!accepts || !Keyed(tx)) {
        r := PoolRefused;
      }
      if r == Inserted {
        Commit(tx, next, before);
      } else {
        if old(Exact()) { RolledBack(before, addressOf, pool, tx); }
        Unreserve(addrs);
      }
      if old(Exact()) { ExactOwnsSigners(reserver.State(), addressOf, pool); }
    }

    /** The ante handler on a branch of the stored context, which is first set to `latest` when there is none. */
    method RunAnte(tx: CosmosTx, latest: Option<Ctx>) returns (r: InsertResult, next: Ctx)
      modifies this`ctx
      ensures ctx == if old(ctx).Some? then old(ctx) else latest
      ensures ctx.None? ==> r == NoContext
      ensures ctx.Some? && !ante(ctx.value, tx).Pass? ==> r == AnteFailed
      ensures ctx.Some? && ante(ctx.value, tx).Pass? ==> r == Inserted && ante(ctx.value, tx) == Pass(next)
    {
      if ctx.None? {
        if latest.None? {
          return NoContext, 0;
        }
        ctx := latest;
      }
      var checked := ante(ctx.value, tx);
      if !checked.Pass? {
        return AnteFailed, 0;
      }
      return Inserted, checked.ctx;
    }

    /** The end of a successful Insert: the pool takes the tx, its branch is written back, and it is marked. */
    method Commit(tx: CosmosTx, next: Ctx, ghost before: Books)
      requires reserver.enableRefCount && recheckedTxs.Valid() && Keyed(tx)
      requires Held(before, reserver.id, true, Addresses(addressOf, tx)) == Some(reserver.State())
      modifies this`ctx, this`pool, recheckedTxs, reserver, reserver.tracker
      ensures pool == old(pool)[KeyOf(tx) := tx] && ctx == Some(next)
      ensures reserver.State() == if KeyOf(tx) in old(pool)
                then ReleaseQuietly(old(reserver.State()), reserver.id, Addresses(addressOf, old(pool)[KeyOf(tx)]))
                else old(reserver.State())
      ensures recheckedTxs.txs == S.Marked(old(recheckedTxs.txs), tx, old(recheckedTxs.nextUnkeyed))
      ensures S.Regular(tx, recheckedTxs.len) && old(recheckedTxs.nextUnkeyed) + 1 < UINT64_LIMIT ==>
              recheckedTxs.Valid()
      ensures reserver.id == P.COSMOS && P.Inv(AtRest(before, addressOf, old(pool))) ==> Exact()
    {
      hide Held, ReleaseQuietly, AtRest, S.Marked, S.StoreInv, S.IsStored, P.Inv, Addresses;
      ghost var exact := reserver.id == P.COSMOS && P.Inv(AtRest(before, addressOf, pool));
      if KeyOf(tx) in pool {
        if exact { Replaced(before, addressOf, pool, tx); }
        Unreserve(Addresses(addressOf, pool[KeyOf(tx)]));
      } else {
        if exact { Committed(before, addressOf, pool, tx); }
      }
      pool := pool[KeyOf(tx) := tx];
      ctx := Some(next);
      recheckedTxs.MarkInserted(tx);
    }

    /** A release whose error is only logged. */
    method Unreserve(addrs: seq<Address>)
      requires reserver.enableRefCount
      modifies reserver, reserver.tracker
      ensures reserver.State() == ReleaseQuietly(old(reserver.State()), reserver.id, addrs)
    {
      hide Released;
      var _ := reserver.Release(addrs);
    }

    /** The removal loop of runRecheck. */
    method RemoveAll(txs: seq<CosmosTx>)
      requires reserver.enableRefCount
      modifies this`pool, reserver, reserver.tracker
      ensures pool == Without(old(pool), txs)
      ensures reserver.State() == ReleaseEach(old(reserver.State()), reserver.id, addressOf, txs)
    {
      hide ReleaseQuietly, Addresses;
      for i := 0 to |txs|
        invariant pool == Without(old(pool), txs[..i])
        invariant reserver.State() == ReleaseEach(old(reserver.State()), reserver.id, addressOf, txs[..i])
      {
        assert txs[..i + 1][..i] == txs[..i];
        if Keyed(txs[i]) {
          pool := pool - {KeyOf(txs[i])};
        }
        Unreserve(Addresses(addressOf, txs[i]));
      }
      assert txs[..|txs|] == txs;
    }

    /** StartNewHeight and the marking of the survivors: a fresh store with exactly these txs added in order. */
    method MarkAll(txs: seq<CosmosTx>)
      modifies this`recheckedTxs
      ensures fresh(recheckedTxs) && recheckedTxs.len == len
      ensures recheckedTxs.Value() == S.AddAll(S.Contents(map[], 0), txs)
      ensures (forall tx :: tx in txs ==> S.Regular(tx, len)) && |txs| < UINT64_LIMIT ==> recheckedTxs.Valid()
    {
      hide S.Added, S.NextUnkeyed, S.StoreInv, S.Regular;
      var store := new S.CosmosTxStore(len);
      ghost var regular := (forall tx :: tx in txs ==> S.Regular(tx, len)) && |txs| < UINT64_LIMIT;
      for i := 0 to |txs|
        invariant fresh(store) && store.len == len
        invariant store.Value() == S.AddAll(S.Contents(map[], 0), txs[..i])
        invariant regular ==> store.Valid() && store.nextUnkeyed <= i
      {
        assert txs[..i + 1][..i] == txs[..i];
        if regular { S.CounterGrows(store.nextUnkeyed, txs[i]); }
        store.AddTx(txs[i]);
      }
      assert txs[..|txs|] == txs;
      recheckedTxs := store;
    }

    /**
     * runRecheck over the pool in the order its iterator yields it. An uncancelled run leaves the
     * stored context as the ante handler folded over exactly the survivors from the new head's
     * context, and removes exactly the rest; a cancelled run, or one without a context, removes nothing.
     * The height's store holds the survivors seen.
     */
    method RunRecheck(order: seq<CosmosTx>, latest: Option<Ctx>, cancelAt: Option<nat>) returns (cancelled: bool)
      requires Lists(order, pool) && reserver.enableRefCount
      modifies this, reserver, reserver.tracker
      ensures latest.None? ==>
                && ctx == old(ctx) && pool == old(pool) && reserver.State() == old(reserver.State())
                && recheckedTxs.Value() == S.Contents(map[], 0)
      ensures latest.Some? ==> (cancelled <==> CancelledBy(cancelAt, |order|))
      ensures latest.Some? ==>
                var seen := if cancelled then order[..cancelAt.value] else order;
                var vs := Verdicts(ante, latest.value, seen);
                && recheckedTxs.Value() == S.AddAll(S.Contents(map[], 0), KeptTxs(seen, vs))
                && ctx == Some(Fold(ante, latest.value, KeptTxs(seen, vs)))
                && (cancelled ==> pool == old(pool) && reserver.State() == old(reserver.State()))
                && (!cancelled ==>
                      && pool == Without(old(pool), RemovedTxs(seen, vs))
                      && reserver.State()
                         == ReleaseEach(old(reserver.State()), reserver.id, addressOf, RemovedTxs(seen, vs)))
      ensures fresh(recheckedTxs) && recheckedTxs.len == len
      ensures (forall tx :: tx in order ==> S.Regular(tx, len)) && |order| < UINT64_LIMIT ==> recheckedTxs.Valid()
      ensures latest.Some? ==>
                var stayed := Stayed(ante, latest.value, order, if cancelled then cancelAt.value else |order|);
                && recheckedTxs.Value() == S.AddAll(S.Contents(map[], 0), stayed)
                && ctx == Some(Replay(ante, latest.value, stayed))
                && (!cancelled ==> pool == StayingOf(ante, latest.value, order, old(pool)))
      ensures old(Exact()) ==> Exact() && SignersOwned(reserver.State(), reserver.id, addressOf, pool)
    {
      hide SignersOwned, Verdicts, Fold, Select, Without, ReleaseEach, Lists, Tracks, P.Inv, S.AddAll, S.StoreInv;
      hide S.Regular, Replay;
      if old(Exact()) { ExactOwnsSigners(reserver.State(), addressOf, pool); }
      if latest.None? {
        MarkAll([]);
        NothingAdded();
        return false;
      }
      var p, stop, seen := RecheckAll(ante, latest.value, order, cancelAt);
      assert order[..|order|] == order;
      KeptAreListed(ante, latest.value, order[..seen], order);
      KeptAreStayed(ante, latest.value, order, seen);
      ctx := Some(p.ctx);
      MarkAll(p.kept);
      if stop {
        return true;
      }
      RemovedArePooled(ante, latest.value, order, pool);
      if old(Exact()) { RemovedEach(reserver.State(), addressOf, pool, p.removed); }
      LeftAfterRecheck(ante, latest.value, order, pool);
      RemoveAll(p.removed);
      if old(Exact()) { ExactOwnsSigners(reserver.State(), addressOf, pool); }
      return false;
    }
  }

  ghost predicate IsStaying(ante: Ante, base: Ctx, order: seq<CosmosTx>, tx: CosmosTx) {
    exists i :: 0 <= i < |order| && order[i] == tx && Stays(ante, base, order, i)
  }

  /** The part of the pool whose txs stay, each under its key. */
  ghost function StayingOf(ante: Ante, base: Ctx, order: seq<CosmosTx>, pool: map<Key, CosmosTx>): map<Key, CosmosTx> {
    map k | k in pool && IsStaying(ante, base, order, pool[k]) :: pool[k]
  }

  lemma {:induction false} WithoutIsPart(pool: map<Key, CosmosTx>, txs: seq<CosmosTx>)
    ensures forall k | k in Without(pool, txs) :: k in pool && Without(pool, txs)[k] == pool[k]
  {
    if txs != [] {
      WithoutIsPart(pool, txs[..|txs| - 1]);
    }
  }

  /** The loop's progress in terms of the answers: what it kept, the context it reached and what it removes. */
  lemma ProgressIsAnswers(p: Progress, ante: Ante, base: Ctx, txs: seq<CosmosTx>, n: nat)
    requires n <= |txs| && Follows(p, ante, base, txs[..n])
    ensures p.kept == Stayed(ante, base, txs, n) && p.ctx == Replay(ante, base, p.kept)
    ensures forall tx :: tx in p.removed <==>
              exists i :: 0 <= i < n && txs[i] == tx && tx.signers.Some? && !Stays(ante, base, txs, i)
  {
    hide Verdicts, Fold, Replay, Stays, Stayed, Select;
    KeptAreStayed(ante, base, txs, n);
    VerdictsAreAnswers(ante, base, txs, n);
    VerdictsOfPrefix(ante, base, txs, n);
    var vs := Verdicts(ante, base, txs[..n]);
    SelectedIff(txs[..n], vs, Removes);
    assert forall i :: 0 <= i < n ==> vs[i] == Verdicts(ante, base, txs)[i] && txs[..n][i] == txs[i];
  }

  lemma KeptAreStayed(ante: Ante, base: Ctx, order: seq<CosmosTx>, n: nat)
    requires n <= |order|
    ensures KeptTxs(order[..n], Verdicts(ante, base, order[..n])) == Stayed(ante, base, order, n)
    ensures Fold(ante, base, Stayed(ante, base, order, n)) == Replay(ante, base, Stayed(ante, base, order, n))
  {
    VerdictsAreAnswers(ante, base, order, n);
    VerdictsOfPrefix(ante, base, order, n);
    FoldIsReplay(ante, base, Stayed(ante, base, order, n));
  }

  /** The pool after a finished recheck, in terms of the answers. */
  lemma LeftAfterRecheck(ante: Ante, base: Ctx, order: seq<CosmosTx>, pool: map<Key, CosmosTx>)
    requires Lists(order, pool)
    ensures var vs := Verdicts(ante, base, order);
            Without(pool, RemovedTxs(order, vs)) == StayingOf(ante, base, order, pool)
  {
    hide Verdicts, Select, Stays, Stayed;
    var vs := Verdicts(ante, base, order);
    VerdictsAreAnswers(ante, base, order, |order|);
    forall k | k in pool
      ensures k in Without(pool, RemovedTxs(order, vs)) <==> IsStaying(ante, base, order, pool[k])
    {
      SurvivorsStay(ante, base, order, pool, k);
    }
    WithoutIsPart(pool, RemovedTxs(order, vs));
  }

  lemma NothingAdded()
    ensures S.AddAll(S.Contents(map[], 0), []) == S.Contents(map[], 0)
  {
  }

  lemma KeptAreListed(ante: Ante, base: Ctx, seen: seq<CosmosTx>, order: seq<CosmosTx>)
    requires seen <= order
    ensures var kept := KeptTxs(seen, Verdicts(ante, base, seen));
            |kept| <= |order| && forall tx :: tx in kept ==> tx in order
  {
    hide Verdicts, Select;
    SelectedIff(seen, Verdicts(ante, base, seen), (v: Verdict) => v == Kept);
  }

  lemma RemovedArePooled(ante: Ante, base: Ctx, order: seq<CosmosTx>, pool: map<Key, CosmosTx>)
    requires Lists(order, pool)
    ensures Pooled(RemovedTxs(order, Verdicts(ante, base, order)), pool)
  {
    hide Verdicts, Select;
    SelectedArePooled(order, Verdicts(ante, base, order), Removes, pool);
  }

  /** What is left of the pool are exactly the txs that were kept, or could not be read. */
  lemma SurvivorsStay(ante: Ante, base: Ctx, order: seq<CosmosTx>, pool: map<Key, CosmosTx>, k: Key)
    requires Lists(order, pool)
    ensures var vs := Verdicts(ante, base, order);
            k in Without(pool, RemovedTxs(order, vs)) <==>
              exists i :: 0 <= i < |order| && KeyOf(order[i]) == k && !Removes(vs[i])
  {
    var vs := Verdicts(ante, base, order);
    WithoutKeys(pool, RemovedTxs(order, vs), k);
    SelectedIff(order, vs, Removes);
    if k in pool {
      var i :| 0 <= i < |order| && order[i] == pool[k];
      assert forall j :: 0 <= j < |order| && KeyOf(order[j]) == k ==> j == i;
    }
  }

  lemma {:induction false} WithoutKeys(pool: map<Key, CosmosTx>, txs: seq<CosmosTx>, k: Key)
    ensures k in Without(pool, txs) <==> k in pool && !exists tx :: tx in txs && Keyed(tx) && KeyOf(tx) == k
  {
    if txs != [] {
      var n := |txs| - 1;
      WithoutKeys(pool, txs[..n], k);
      assert txs == txs[..n] + [txs[n]];
    }
  }

  lemma {:induction false} SelectedIff(txs: seq<CosmosTx>, vs: seq<Verdict>, p: Verdict -> bool)
    requires |vs| == |txs|
    ensures forall tx :: tx in Select(txs, vs, p) <==> exists i :: 0 <= i < |txs| && txs[i] == tx && p(vs[i])
  {
    if txs != [] {
      var n := |txs| - 1;
      SelectedIff(txs[..n], vs[..n], p);
      forall tx ensures tx in Select(txs, vs, p) <==> exists i :: 0 <= i < |txs| && txs[i] == tx && p(vs[i]) {
        if tx in Select(txs[..n], vs[..n], p) {
          var i :| 0 <= i < n && txs[..n][i] == tx && p(vs[..n][i]);
          assert txs[i] == tx && p(vs[i]);
        }
        if i :| 0 <= i < |txs| && txs[i] == tx && p(vs[i]) {
          if i < n { assert txs[..n][i] == tx && p(vs[..n][i]); }
        }
      }
    }
  }
}
