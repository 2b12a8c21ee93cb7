/** The merge of the EVM and Cosmos orderings by tip (mempool/iterator.go). */
module UnifiedIterator {
  import opened Common
  import opened CosmosTypes
  import opened BucketQueues
  import E = MinerOrdering
  import C = CosmosOrdering

  type EvmQueues = Queues<Address, E.Head>
  type CosmosQueues = Queues<C.SignerKey, C.Head>

  datatype Out = FromEVM(evm: E.LazyTx) | FromCosmos(cosmos: CosmosTx)

  datatype Action = NoAction | Advance | SkipAccount

  /** What the iterator is built with; whether an EVM tx converts to an SDK tx is a fact about the tx. */
  datatype Rules = Rules(convertible: E.LazyTx -> bool, denom: string, baseFee: Option<nat>) {
    function Tip(c: C.Head): nat { C.EffectiveTip(c.tx.tx, denom, baseFee) }
  }

  // --- What the merge promises, said on the queues ---

  /** One yield: an EVM tx, or a Cosmos tx together with the EVM tx whose conversion failed first, if any. */
  datatype Step = YieldEVM(evm: E.Head) | YieldCosmos(cosmos: C.Head, failed: Option<E.Head>)

  /**
   * An EVM tx is yielded when it leads its queues, converts, and no leading Cosmos tip is higher.
   * A Cosmos tx is yielded when it leads its queues and either beats the tip of every EVM head
   * strictly or steps in for a leading EVM tx that did not convert.
   */
  ghost predicate Allowed(r: Rules, eq: EvmQueues, cq: CosmosQueues, s: Step)
    requires NonEmpty(eq) && NonEmpty(cq)
  {
    match s
    case YieldEVM(h) =>
      && Fire(E.Less, eq, Take(h.from, h)).Some? && r.convertible(h.tx)
      && (forall k | k in cq :: Best(C.Less, cq, k) ==> r.Tip(cq[k][0]) <= h.fees)
    case YieldCosmos(c, None) =>
      && Fire(C.Less, cq, Take(c.signerKey, c)).Some?
      && (forall a | a in eq :: r.Tip(c) > eq[a][0].fees)
    case YieldCosmos(c, Some(h)) =>
      && Fire(C.Less, cq, Take(c.signerKey, c)).Some?
      && Fire(E.Less, eq, Take(h.from, h)).Some? && !r.convertible(h.tx) && r.Tip(c) <= h.fees
  }

  function EvmMove(s: Step): seq<Move<Address, E.Head>> {
    match s
    case YieldEVM(h) => [Take(h.from, h)]
    case YieldCosmos(_, None) => []
    case YieldCosmos(_, Some(h)) => [Skip(h.from)]
  }

  function CosmosMove(s: Step): seq<Move<C.SignerKey, C.Head>> {
    match s
    case YieldEVM(_) => []
    case YieldCosmos(c, _) => [Take(c.signerKey, c)]
  }

  function Yielded(s: Step): Out {
    match s
    case YieldEVM(h) => FromEVM(h.tx)
    case YieldCosmos(c, _) => FromCosmos(c.tx.tx)
  }

  /** The EVM queues after a step: an advance, nothing, or a whole account skipped. */
  ghost function EvmAfter(eq: EvmQueues, s: Step): (r: Option<EvmQueues>)
    requires NonEmpty(eq)
    ensures r.Some? ==> NonEmpty(r.value)
  {
    match s
    case YieldEVM(h) => Fire(E.Less, eq, Take(h.from, h))
    case YieldCosmos(_, None) => Some(eq)
    case YieldCosmos(_, Some(h)) => Fire(E.Less, eq, Skip(h.from))
  }

  ghost function CosmosAfter(cq: CosmosQueues, s: Step): (r: Option<CosmosQueues>)
    requires NonEmpty(cq)
    ensures r.Some? ==> NonEmpty(r.value)
  {
    match s
    case YieldEVM(_) => Some(cq)
    case YieldCosmos(c, _) => Fire(C.Less, cq, Take(c.signerKey, c))
  }

  /** Every allowed step can be carried out. */
  lemma AllowedSteps(r: Rules, eq: EvmQueues, cq: CosmosQueues, s: Step)
    requires NonEmpty(eq) && NonEmpty(cq) && Allowed(r, eq, cq, s)
    ensures EvmAfter(eq, s).Some? && CosmosAfter(cq, s).Some?
    ensures s.YieldEVM? ==> Total(EvmAfter(eq, s).value) < Total(eq)
    ensures s.YieldCosmos? ==> Total(EvmAfter(eq, s).value) <= Total(eq) && Total(CosmosAfter(cq, s).value) < Total(cq)
  {
    match s
    case YieldEVM(h) => FireShrinks(E.Less, eq, Take(h.from, h));
    case YieldCosmos(c, None) => FireShrinks(C.Less, cq, Take(c.signerKey, c));
    case YieldCosmos(c, Some(h)) =>
      FireShrinks(C.Less, cq, Take(c.signerKey, c));
      FireShrinks(E.Less, eq, Skip(h.from));
  }

  datatype Left = Left(eq: EvmQueues, cq: CosmosQueues)

  /** What is left of both sides after the steps, if every one of them is allowed. */
  ghost function RunMerge(r: Rules, eq: EvmQueues, cq: CosmosQueues, ss: seq<Step>): (l: Option<Left>)
    requires NonEmpty(eq) && NonEmpty(cq)
    ensures l.Some? ==> NonEmpty(l.value.eq) && NonEmpty(l.value.cq)
  {
    if ss == [] then Some(Left(eq, cq))
    else
      var before := RunMerge(r, eq, cq, ss[..|ss| - 1]);
      var s := ss[|ss| - 1];
      if before.None? || !Allowed(r, before.value.eq, before.value.cq, s) then None
      else
        AllowedSteps(r, before.value.eq, before.value.cq, s);
        Some(Left(EvmAfter(before.value.eq, s).value, CosmosAfter(before.value.cq, s).value))
  }

  function EvmMoves(ss: seq<Step>): seq<Move<Address, E.Head>> {
    if ss == [] then [] else EvmMoves(ss[..|ss| - 1]) + EvmMove(ss[|ss| - 1])
  }

  function CosmosMoves(ss: seq<Step>): seq<Move<C.SignerKey, C.Head>> {
    if ss == [] then [] else CosmosMoves(ss[..|ss| - 1]) + CosmosMove(ss[|ss| - 1])
  }

  function Outs(ss: seq<Step>): (outs: seq<Out>)
    ensures |outs| == |ss|
  {
    if ss == [] then [] else Outs(ss[..|ss| - 1]) + [Yielded(ss[|ss| - 1])]
  }

  /** A step as a move, or no move, of the EVM ordering; likewise of the Cosmos ordering. */
  lemma StepMovesEvm(eq: EvmQueues, ms: seq<Move<Address, E.Head>>, mid: EvmQueues, s: Step)
    requires NonEmpty(eq) && NonEmpty(mid) && Run(E.Less, eq, ms) == Some(mid)
    ensures Run(E.Less, eq, ms + EvmMove(s)) == EvmAfter(mid, s)
  {
    hide Fire, Run, E.Less;
    if EvmMove(s) == [] {
      assert ms + [] == ms;
    } else {
      RunOneMore(E.Less, eq, ms, EvmMove(s)[0]);
    }
  }

  lemma StepMovesCosmos(cq: CosmosQueues, ms: seq<Move<C.SignerKey, C.Head>>, mid: CosmosQueues, s: Step)
    requires NonEmpty(cq) && NonEmpty(mid) && Run(C.Less, cq, ms) == Some(mid)
    ensures Run(C.Less, cq, ms + CosmosMove(s)) == CosmosAfter(mid, s)
  {
    hide Fire, Run, C.Less;
    if CosmosMove(s) == [] {
      assert ms + [] == ms;
    } else {
      RunOneMore(C.Less, cq, ms, CosmosMove(s)[0]);
    }
  }

  /** Seen from either side alone, a merge is a run of that side's own ordering. */
  lemma {:induction false} MergeProjects(r: Rules, eq: EvmQueues, cq: CosmosQueues, ss: seq<Step>)
    requires NonEmpty(eq) && NonEmpty(cq) && RunMerge(r, eq, cq, ss).Some?
    ensures Run(E.Less, eq, EvmMoves(ss)) == Some(RunMerge(r, eq, cq, ss).value.eq)
    ensures Run(C.Less, cq, CosmosMoves(ss)) == Some(RunMerge(r, eq, cq, ss).value.cq)
  {
    hide Fire, Best, NonEmpty, Run, Allowed, EvmAfter, CosmosAfter, EvmMove, CosmosMove;
    if ss == [] {
      RunNothing(E.Less, eq);
      RunNothing(C.Less, cq);
    } else {
      var front, s := ss[..|ss| - 1], ss[|ss| - 1];
      MergeProjects(r, eq, cq, front);
      var mid := RunMerge(r, eq, cq, front).value;
      AllowedSteps(r, mid.eq, mid.cq, s);
      StepMovesEvm(eq, EvmMoves(front), mid.eq, s);
      StepMovesCosmos(cq, CosmosMoves(front), mid.cq, s);
    }
  }

  lemma StepsGrow(ss: seq<Step>, s: Step)
    ensures EvmMoves(ss + [s]) == EvmMoves(ss) + EvmMove(s)
    ensures CosmosMoves(ss + [s]) == CosmosMoves(ss) + CosmosMove(s)
    ensures Outs(ss + [s]) == Outs(ss) + [Yielded(s)]
    ensures (ss + [s])[..|ss + [s]| - 1] == ss
  {
    assert (ss + [s])[..|ss|] == ss;
  }

  function TakenTxs(ms: seq<Move<Address, E.Head>>): seq<E.LazyTx> {
    if ms == [] then []
    else TakenTxs(ms[..|ms| - 1]) + if ms[|ms| - 1].Take? then [ms[|ms| - 1].entry.tx] else []
  }

  function TakenCosmos(ms: seq<Move<C.SignerKey, C.Head>>): seq<CosmosTx> {
    if ms == [] then []
    else TakenCosmos(ms[..|ms| - 1]) + if ms[|ms| - 1].Take? then [ms[|ms| - 1].entry.tx.tx] else []
  }

  /** outs interleaves xs and ys, keeping the order of each. */
  ghost predicate Shuffle(outs: seq<Out>, xs: seq<E.LazyTx>, ys: seq<CosmosTx>) {
    if outs == [] then xs == [] && ys == []
    else
      match outs[|outs| - 1]
      case FromEVM(x) => xs != [] && xs[|xs| - 1] == x && Shuffle(outs[..|outs| - 1], xs[..|xs| - 1], ys)
      case FromCosmos(y) => ys != [] && ys[|ys| - 1] == y && Shuffle(outs[..|outs| - 1], xs, ys[..|ys| - 1])
  }

  /** What comes out is an interleaving of what the two sides gave. */
  lemma {:induction false} OutsShuffle(ss: seq<Step>)
    ensures Shuffle(Outs(ss), TakenTxs(EvmMoves(ss)), TakenCosmos(CosmosMoves(ss)))
  {
    if ss != [] {
      var front, s := ss[..|ss| - 1], ss[|ss| - 1];
      OutsShuffle(front);
      TakenGrow(EvmMoves(front), CosmosMoves(front), s);
      ShuffleGrows(Outs(front), TakenTxs(EvmMoves(front)), TakenCosmos(CosmosMoves(front)), s);
    }
  }

  /** What a step adds to either side's txs. */
  lemma TakenGrow(es: seq<Move<Address, E.Head>>, cs: seq<Move<C.SignerKey, C.Head>>, s: Step)
    ensures TakenTxs(es + EvmMove(s)) == TakenTxs(es) + if s.YieldEVM? then [s.evm.tx] else []
    ensures TakenCosmos(cs + CosmosMove(s)) == TakenCosmos(cs) + if s.YieldCosmos? then [s.cosmos.tx.tx] else []
  {
    if EvmMove(s) == [] {
      assert es + [] == es;
    } else {
      assert (es + EvmMove(s))[..|es|] == es;
    }
    if CosmosMove(s) == [] {
      assert cs + [] == cs;
    } else {
      assert (cs + CosmosMove(s))[..|cs|] == cs;
    }
  }

  lemma ShuffleGrows(outs: seq<Out>, xs: seq<E.LazyTx>, ys: seq<CosmosTx>, s: Step)
    requires Shuffle(outs, xs, ys)
    ensures var x, y := if s.YieldEVM? then [s.evm.tx] else [], if s.YieldCosmos? then [s.cosmos.tx.tx] else [];
            Shuffle(outs + [Yielded(s)], xs + x, ys + y)
  {
    assert (outs + [Yielded(s)])[..|outs|] == outs;
    match s
    case YieldEVM(h) => assert (xs + [h.tx])[..|xs|] == xs && ys + [] == ys;
    case YieldCosmos(c, _) => assert (ys + [c.tx.tx])[..|ys|] == ys && xs + [] == xs;
  }

  /**
   * Where a walk can be over: no Cosmos tx is left, and no EVM tx either unless a leading one does not
   * convert. Another account's head may tie with that one.
   */
  ghost predicate Ended(r: Rules, l: Left)
    requires NonEmpty(l.eq)
  {
    l.cq == map[] && (l.eq == map[] || exists a | a in l.eq :: Best(E.Less, l.eq, a) && !r.convertible(l.eq[a][0].tx))
  }

  ghost predicate AllConvert(r: Rules, eq: EvmQueues) {
    forall a, i :: a in eq && 0 <= i < |eq[a]| ==> r.convertible(eq[a][i].tx)
  }

  lemma {:induction false} ConvertLasts(r: Rules, eq: EvmQueues, cq: CosmosQueues, ss: seq<Step>)
    requires NonEmpty(eq) && NonEmpty(cq) && RunMerge(r, eq, cq, ss).Some? && AllConvert(r, eq)
    ensures AllConvert(r, RunMerge(r, eq, cq, ss).value.eq)
    ensures forall i :: 0 <= i < |EvmMoves(ss)| ==> EvmMoves(ss)[i].Take?
  {
    if ss != [] {
      var front, s := ss[..|ss| - 1], ss[|ss| - 1];
      ConvertLasts(r, eq, cq, front);
      ConvertStep(r, RunMerge(r, eq, cq, front).value.eq, RunMerge(r, eq, cq, front).value.cq, s);
    }
  }

  lemma ConvertStep(r: Rules, eq: EvmQueues, cq: CosmosQueues, s: Step)
    requires NonEmpty(eq) && NonEmpty(cq) && Allowed(r, eq, cq, s) && AllConvert(r, eq)
    ensures EvmAfter(eq, s).Some? && AllConvert(r, EvmAfter(eq, s).value)
    ensures forall i :: 0 <= i < |EvmMove(s)| ==> EvmMove(s)[i].Take?
  {
  }

  lemma {:induction false} CosmosOnlyTakes(ss: seq<Step>)
    ensures forall i :: 0 <= i < |CosmosMoves(ss)| ==> CosmosMoves(ss)[i].Take?
  {
    if ss != [] { CosmosOnlyTakes(ss[..|ss| - 1]); }
  }

  /**
   * With every queued EVM tx convertible, a finished walk is an interleaving of a full drain of
   * the EVM ordering and a full drain of the Cosmos ordering.
   */
  lemma MergeDrainsBoth(r: Rules, eq: EvmQueues, cq: CosmosQueues, ss: seq<Step>)
    requires NonEmpty(eq) && NonEmpty(cq) && AllConvert(r, eq)
    requires RunMerge(r, eq, cq, ss).Some? && Ended(r, RunMerge(r, eq, cq, ss).value)
    ensures Drains(E.Less, eq, EvmMoves(ss)) && Drains(C.Less, cq, CosmosMoves(ss))
    ensures Shuffle(Outs(ss), TakenTxs(EvmMoves(ss)), TakenCosmos(CosmosMoves(ss)))
  {
    MergeProjects(r, eq, cq, ss);
    ConvertLasts(r, eq, cq, ss);
    CosmosIsDrained(r, eq, cq, ss);
    OutsShuffle(ss);
  }

  /** No Cosmos tx is ever lost, whatever converts: a finished walk drains the Cosmos ordering. */
  lemma CosmosIsDrained(r: Rules, eq: EvmQueues, cq: CosmosQueues, ss: seq<Step>)
    requires NonEmpty(eq) && NonEmpty(cq)
    requires RunMerge(r, eq, cq, ss).Some? && Ended(r, RunMerge(r, eq, cq, ss).value)
    ensures Drains(C.Less, cq, CosmosMoves(ss))
  {
    MergeProjects(r, eq, cq, ss);
    CosmosOnlyTakes(ss);
  }

  lemma TakenOfGrows(es: seq<Move<Address, E.Head>>, s: Step, a: Address)
    ensures TakenOf(es + EvmMove(s), a) == TakenOf(es, a) + if s.YieldEVM? && s.evm.from == a then [s.evm] else []
  {
    if EvmMove(s) == [] {
      assert es + [] == es;
    } else {
      assert (es + EvmMove(s))[..|es|] == es;
    }
  }

  lemma NothingTaken(a: Address)
    ensures TakenOf<Address, E.Head>([], a) == []
  {
  }

  lemma YieldsConvert(r: Rules, eq: EvmQueues, cq: CosmosQueues, s: Step)
    requires NonEmpty(eq) && NonEmpty(cq) && Allowed(r, eq, cq, s)
    ensures s.YieldEVM? ==> r.convertible(s.evm.tx)
  {
  }

  /** Every EVM tx that came out was convertible. */
  lemma {:induction false} TakenConvert(r: Rules, eq: EvmQueues, cq: CosmosQueues, ss: seq<Step>, a: Address, i: nat)
    requires NonEmpty(eq) && NonEmpty(cq) && RunMerge(r, eq, cq, ss).Some?
    requires i < |TakenOf(EvmMoves(ss), a)|
    ensures r.convertible(TakenOf(EvmMoves(ss), a)[i].tx)
  {
    hide Fire, NonEmpty, Allowed, EvmAfter, CosmosAfter, EvmMove, TakenOf;
    assert ss != [] by { if ss == [] { NothingTaken(a); } }
    var front, s := ss[..|ss| - 1], ss[|ss| - 1];
    YieldsConvert(r, RunMerge(r, eq, cq, front).value.eq, RunMerge(r, eq, cq, front).value.cq, s);
    TakenOfGrows(EvmMoves(front), s, a);
    if i < |TakenOf(EvmMoves(front), a)| {
      TakenConvert(r, eq, cq, front, a, i);
    }
  }

  /** What an account gave and what is left of it: its queue, or a prefix cut off at an entry that does not convert. */
  ghost predicate Accounted(r: Rules, queue: seq<E.Head>, taken: seq<E.Head>, left: seq<E.Head>) {
    || taken + left == queue
    || (left == [] && taken < queue && !r.convertible(queue[|taken|].tx))
  }

  /** Every EVM account is accounted for at every moment of every walk. */
  lemma {:induction false} EveryAccountIsAccounted(r: Rules, eq: EvmQueues, cq: CosmosQueues, ss: seq<Step>, a: Address)
    requires NonEmpty(eq) && NonEmpty(cq) && RunMerge(r, eq, cq, ss).Some?
    ensures Accounted(r, At(eq, a), TakenOf(EvmMoves(ss), a), At(RunMerge(r, eq, cq, ss).value.eq, a))
  {
    hide Fire, Best, E.Less, Allowed, EvmAfter, CosmosAfter;
    if ss != [] {
      var front, s := ss[..|ss| - 1], ss[|ss| - 1];
      EveryAccountIsAccounted(r, eq, cq, front, a);
      var mid := RunMerge(r, eq, cq, front).value;
      AllowedSteps(r, mid.eq, mid.cq, s);
      TakenOfGrows(EvmMoves(front), s, a);
      StepAccounts(r, mid.eq, mid.cq, s, a, At(eq, a), TakenOf(EvmMoves(front), a));
    } else {
      assert [] + At(eq, a) == At(eq, a);
    }
  }

  /** One step as account a sees it. */
  lemma StepAccounts(r: Rules, eq: EvmQueues, cq: CosmosQueues, s: Step, a: Address, queue: seq<E.Head>,
                     taken: seq<E.Head>)
    requires NonEmpty(eq) && NonEmpty(cq) && Allowed(r, eq, cq, s) && EvmAfter(eq, s).Some?
    requires Accounted(r, queue, taken, At(eq, a))
    ensures var given := if s.YieldEVM? && s.evm.from == a then [s.evm] else [];
            Accounted(r, queue, taken + given, At(EvmAfter(eq, s).value, a))
  {
    hide Fire, Best, E.Less, C.Less;
    var left := At(eq, a);
    match s
    case YieldEVM(h) =>
      FireAt(E.Less, eq, Take(h.from, h), a);
      if h.from == a {
        assert taken + [h] + At(EvmAfter(eq, s).value, a) == taken + left;
      } else {
        assert taken + [] == taken;
      }
    case YieldCosmos(_, None) => assert taken + [] == taken;
    case YieldCosmos(_, Some(h)) =>
      FireAt(E.Less, eq, Skip(h.from), a);
      LeaderIsHead(eq, h);
      assert taken + [] == taken;
      if h.from == a { assert (taken + left)[|taken|] == left[0] == h; }
  }

  lemma LeaderIsHead(eq: EvmQueues, h: E.Head)
    requires NonEmpty(eq) && Fire(E.Less, eq, Take(h.from, h)).Some?
    ensures At(eq, h.from) != [] && At(eq, h.from)[0] == h
  {
  }

  /** The longest prefix of the queue that converts. */
  function Convertible(r: Rules, queue: seq<E.Head>): (p: seq<E.Head>)
    ensures p <= queue
    ensures forall i :: 0 <= i < |p| ==> r.convertible(p[i].tx)
    ensures |p| < |queue| ==> !r.convertible(queue[|p|].tx)
  {
    if queue == [] || !r.convertible(queue[0].tx) then [] else [queue[0]] + Convertible(r, queue[1..])
  }

  /** Only one prefix converts and stops at an entry that does not. */
  lemma ConvertibleIsUnique(r: Rules, queue: seq<E.Head>, p: seq<E.Head>)
    requires p <= queue && forall i :: 0 <= i < |p| ==> r.convertible(p[i].tx)
    ensures p == Convertible(r, queue) <==> |p| == |queue| || !r.convertible(queue[|p|].tx)
  {
    var c := Convertible(r, queue);
    assert forall i :: 0 <= i < |c| ==> c[i] == queue[i];
    assert forall i :: 0 <= i < |p| ==> p[i] == queue[i];
    assert |p| == |c| ==> p == c;
  }

  /** The account gave its longest convertible prefix. */
  ghost predicate YieldedInFull(r: Rules, eq: EvmQueues, ss: seq<Step>, a: Address) {
    TakenOf(EvmMoves(ss), a) == Convertible(r, At(eq, a))
  }

  /**
   * In any walk, wherever it stands, an account has yielded its longest convertible prefix exactly when
   * it is gone or its head does not convert.
   */
  lemma AccountInFullIff(r: Rules, eq: EvmQueues, cq: CosmosQueues, ss: seq<Step>, a: Address)
    requires NonEmpty(eq) && NonEmpty(cq) && RunMerge(r, eq, cq, ss).Some?
    ensures var left := RunMerge(r, eq, cq, ss).value.eq;
            YieldedInFull(r, eq, ss, a) <==> (a in left ==> !r.convertible(left[a][0].tx))
  {
    hide RunMerge, Convertible;
    var left := RunMerge(r, eq, cq, ss).value.eq;
    var queue, taken := At(eq, a), TakenOf(EvmMoves(ss), a);
    EveryAccountIsAccounted(r, eq, cq, ss, a);
    forall i | 0 <= i < |taken| ensures r.convertible(taken[i].tx) { TakenConvert(r, eq, cq, ss, a, i); }
    ConvertibleIsUnique(r, queue, taken);
    if a in left && taken + left[a] == queue { assert queue[|taken|] == left[a][0]; }
  }

  /**
   * A finished walk has yielded every account's longest convertible prefix exactly when every head it
   * left does not convert.
   */
  lemma NothingConvertibleLostIff(r: Rules, eq: EvmQueues, cq: CosmosQueues, ss: seq<Step>)
    requires NonEmpty(eq) && NonEmpty(cq)
    requires RunMerge(r, eq, cq, ss).Some? && Ended(r, RunMerge(r, eq, cq, ss).value)
    ensures var left := RunMerge(r, eq, cq, ss).value.eq;
            (forall a :: YieldedInFull(r, eq, ss, a)) <==> (forall a | a in left :: !r.convertible(left[a][0].tx))
  {
    hide RunMerge, YieldedInFull, Ended;
    forall a
      ensures var left := RunMerge(r, eq, cq, ss).value.eq;
              YieldedInFull(r, eq, ss, a) <==> (a in left ==> !r.convertible(left[a][0].tx))
    {
      AccountInFullIff(r, eq, cq, ss, a);
    }
  }

  /** A finished walk yields every EVM account in full exactly when every queued EVM tx converts. */
  lemma NothingLostIff(r: Rules, eq: EvmQueues, cq: CosmosQueues, ss: seq<Step>)
    requires NonEmpty(eq) && NonEmpty(cq)
    requires RunMerge(r, eq, cq, ss).Some? && Ended(r, RunMerge(r, eq, cq, ss).value)
    ensures (forall a :: TakenOf(EvmMoves(ss), a) == At(eq, a)) <==> AllConvert(r, eq)
  {
    if AllConvert(r, eq) {
      MergeDrainsBoth(r, eq, cq, ss);
      forall a ensures TakenOf(EvmMoves(ss), a) == At(eq, a) { DrainTakesAll(E.Less, eq, EvmMoves(ss), a); }
    } else {
      var a, i :| a in eq && 0 <= i < |eq[a]| && !r.convertible(eq[a][i].tx);
      if TakenOf(EvmMoves(ss), a) == At(eq, a) { TakenConvert(r, eq, cq, ss, a, i); }
    }
  }

  /** The n-th step of a walk was allowed where it was made. */
  lemma {:induction false} StepWasAllowed(r: Rules, eq: EvmQueues, cq: CosmosQueues, ss: seq<Step>, n: nat)
    requires NonEmpty(eq) && NonEmpty(cq) && RunMerge(r, eq, cq, ss).Some? && n < |ss|
    ensures RunMerge(r, eq, cq, ss[..n]).Some?
    ensures var before := RunMerge(r, eq, cq, ss[..n]).value; Allowed(r, before.eq, before.cq, ss[n])
  {
    hide Allowed, EvmAfter, CosmosAfter, Fire;
    var front := ss[..|ss| - 1];
    if n < |front| {
      StepWasAllowed(r, eq, cq, front, n);
      assert front[..n] == ss[..n];
    }
  }

  /** Some EVM head offers at least this tip. */
  ghost predicate Offered(eq: EvmQueues, tip: nat)
    requires NonEmpty(eq)
  {
    exists a :: a in eq && eq[a][0].fees >= tip
  }

  /**
   * In any walk a Cosmos tx is yielded over an EVM head of at least its tip exactly when it steps in for
   * a leading EVM tx that did not convert; so never when every queued EVM tx converts.
   */
  lemma CosmosOverEvmIff(r: Rules, eq: EvmQueues, cq: CosmosQueues, ss: seq<Step>, n: nat)
    requires NonEmpty(eq) && NonEmpty(cq) && RunMerge(r, eq, cq, ss).Some? && n < |ss| && ss[n].YieldCosmos?
    ensures RunMerge(r, eq, cq, ss[..n]).Some?
    ensures Offered(RunMerge(r, eq, cq, ss[..n]).value.eq, r.Tip(ss[n].cosmos)) <==> ss[n].failed.Some?
    ensures AllConvert(r, eq) ==> !Offered(RunMerge(r, eq, cq, ss[..n]).value.eq, r.Tip(ss[n].cosmos))
  {
    hide RunMerge, Best, C.EffectiveTip, E.Less, C.Less;
    StepWasAllowed(r, eq, cq, ss, n);
    var before := RunMerge(r, eq, cq, ss[..n]).value;
    if ss[n].failed.Some? {
      var h := ss[n].failed.value;
      LeaderIsHead(before.eq, h);
      assert h.from in before.eq && before.eq[h.from][0] == h && !r.convertible(h.tx);
    }
    if AllConvert(r, eq) { ConvertLasts(r, eq, cq, ss[..n]); }
  }

  /** The Cosmos queues carry the tips the merge compares. */
  ghost predicate Priced(r: Rules, cq: CosmosQueues) {
    forall k, i :: k in cq && 0 <= i < |cq[k]| ==> cq[k][i].fee == r.Tip(cq[k][i])
  }

  /** They do when the Cosmos iterator was built with the same denomination and base fee. */
  lemma BucketsArePriced(r: Rules, buckets: map<C.SignerKey, seq<StoredTx>>)
    ensures Priced(r, C.QueuesOf(buckets, r.denom, r.baseFee))
  {
  }

  lemma {:induction false} PricedLasts(r: Rules, eq: EvmQueues, cq: CosmosQueues, ss: seq<Step>)
    requires NonEmpty(eq) && NonEmpty(cq) && RunMerge(r, eq, cq, ss).Some? && Priced(r, cq)
    ensures Priced(r, RunMerge(r, eq, cq, ss).value.cq)
  {
    hide C.EffectiveTip, Allowed, EvmAfter, CosmosAfter, Priced;
    if ss != [] {
      var front := ss[..|ss| - 1];
      PricedLasts(r, eq, cq, front);
      var mid := RunMerge(r, eq, cq, front).value;
      AllowedSteps(r, mid.eq, mid.cq, ss[|ss| - 1]);
      PricedStep(r, mid.cq, ss[|ss| - 1]);
    }
  }

  lemma PricedStep(r: Rules, cq: CosmosQueues, s: Step)
    requires NonEmpty(cq) && Priced(r, cq) && CosmosAfter(cq, s).Some?
    ensures Priced(r, CosmosAfter(cq, s).value)
  {
    hide Fire, C.Less, C.EffectiveTip;
    var after: CosmosQueues := CosmosAfter(cq, s).value;
    if s.YieldCosmos? {
      forall k, i | k in after && 0 <= i < |after[k]| ensures after[k][i].fee == r.Tip(after[k][i]) {
        FireAt(C.Less, cq, Take(s.cosmos.signerKey, s.cosmos), k);
        assert At(after, k)[i] == if k == s.cosmos.signerKey then At(cq, k)[i + 1] else At(cq, k)[i];
      }
    }
  }

  /** No head of either side has a higher tip than this one, the EVM side only as far as it converts. */
  ghost predicate Dearest(r: Rules, eq: EvmQueues, cq: CosmosQueues, s: Step)
    requires NonEmpty(eq) && NonEmpty(cq)
  {
    match s
    case YieldEVM(h) =>
      && (forall a | a in eq :: eq[a][0].fees <= h.fees)
      && (forall k | k in cq :: r.Tip(cq[k][0]) <= h.fees)
    case YieldCosmos(c, failed) =>
      && (forall k | k in cq :: r.Tip(cq[k][0]) <= r.Tip(c))
      && (failed.None? ==> forall a | a in eq :: eq[a][0].fees < r.Tip(c))
  }

  /**
   * Wherever a walk stands, no Cosmos head it passes over has a higher tip than what it yields, and no
   * EVM head either unless the yield steps in for an EVM tx that did not convert.
   */
  lemma NothingDearerPassedOver(r: Rules, eq: EvmQueues, cq: CosmosQueues, ss: seq<Step>, n: nat)
    requires NonEmpty(eq) && NonEmpty(cq) && RunMerge(r, eq, cq, ss).Some? && Priced(r, cq) && n < |ss|
    ensures RunMerge(r, eq, cq, ss[..n]).Some?
    ensures var before := RunMerge(r, eq, cq, ss[..n]).value; Dearest(r, before.eq, before.cq, ss[n])
  {
    hide RunMerge;
    StepWasAllowed(r, eq, cq, ss, n);
    PricedLasts(r, eq, cq, ss[..n]);
    var before := RunMerge(r, eq, cq, ss[..n]).value;
    AllowedIsDearest(r, before.eq, before.cq, ss[n]);
  }

  lemma AllowedIsDearest(r: Rules, eq: EvmQueues, cq: CosmosQueues, s: Step)
    requires NonEmpty(eq) && NonEmpty(cq) && Allowed(r, eq, cq, s) && Priced(r, cq)
    ensures Dearest(r, eq, cq, s)
  {
    hide C.EffectiveTip, LexLess, StoredLess;
    if s.YieldEVM? && cq != map[] {
      C.LessIsTotalOnKeys();
      SomeBest(C.Less, cq);
      var best :| Best(C.Less, cq, best);
      forall k | k in cq ensures r.Tip(cq[k][0]) <= r.Tip(cq[best][0]) {
        assert cq[k][0].fee == r.Tip(cq[k][0]) && cq[best][0].fee == r.Tip(cq[best][0]);
      }
    }
    if s.YieldCosmos? {
      forall k | k in cq ensures r.Tip(cq[k][0]) <= r.Tip(s.cosmos) {
        assert cq[k][0].fee == r.Tip(cq[k][0]) && cq[s.cosmos.signerKey][0] == s.cosmos;
      }
    }
  }

  /** An account whose tx failed to convert yields nothing from then on. */
  lemma FailedAccountIsGone(r: Rules, eq: EvmQueues, cq: CosmosQueues, ss: seq<Step>, i: nat, j: nat)
    requires NonEmpty(eq) && NonEmpty(cq) && RunMerge(r, eq, cq, ss).Some?
    requires i < j < |EvmMoves(ss)| && EvmMoves(ss)[i].Skip?
    ensures EvmMoves(ss)[j].key != EvmMoves(ss)[i].key
  {
    MergeProjects(r, eq, cq, ss);
    SkippedIsGone(E.Less, eq, EvmMoves(ss), i, j);
  }

  // --- The iterator itself ---

  /** shouldSelectEVMTx. */
  predicate ShouldSelectEVM(e: Option<E.Head>, c: Option<CosmosTx>, cosmosTip: nat) {
    if e.None? then false
    else if c.None? then true
    else if cosmosTip == 0 then true
    else !(cosmosTip > e.value.fees)
  }

  /** The step the iterator is poised to make, given both leading entries. */
  function Poised(r: Rules, e: Option<E.Head>, c: Option<C.Head>): Option<Step> {
    if e.Some? && (c.None? || r.Tip(c.value) <= e.value.fees) then
      if r.convertible(e.value.tx) then Some(YieldEVM(e.value))
      else if c.Some? then Some(YieldCosmos(c.value, Some(e.value)))
      else None
    else if c.Some? then Some(YieldCosmos(c.value, None))
    else None
  }

  ghost predicate LeadsEvm(e: Option<E.Head>, eq: EvmQueues)
    requires NonEmpty(eq)
  {
    && (e.None? <==> eq == map[])
    && (e.Some? ==> Best(E.Less, eq, e.value.from) && eq[e.value.from][0] == e.value)
  }

  ghost predicate LeadsCosmos(c: Option<C.Head>, cq: CosmosQueues)
    requires NonEmpty(cq)
  {
    && (c.None? <==> cq == map[])
    && (c.Some? ==> Best(C.Less, cq, c.value.signerKey) && cq[c.value.signerKey][0] == c.value)
  }

  /** The step the iterator is poised to make is allowed; with none it stands where a walk can be over. */
  lemma PoisedIsAllowed(r: Rules, e: Option<E.Head>, eq: EvmQueues, c: Option<C.Head>, cq: CosmosQueues)
    requires NonEmpty(eq) && NonEmpty(cq) && KeyedBy(cq, C.KeyOf) && LeadsEvm(e, eq) && LeadsCosmos(c, cq)
    ensures Poised(r, e, c).Some? ==> Allowed(r, eq, cq, Poised(r, e, c).value)
    ensures Poised(r, e, c).None? ==> Ended(r, Left(eq, cq))
  {
    if c.Some? {
      forall k | k in cq && Best(C.Less, cq, k)
        ensures cq[k][0] == c.value
      {
        C.LessIsTotalOnKeys();
        assert Fire(C.Less, cq, Take(k, cq[k][0])).Some? && Fire(C.Less, cq, Take(c.value.signerKey, c.value)).Some?;
        OneBest(C.Less, C.KeyOf, cq, Take(k, cq[k][0]), Take(c.value.signerKey, c.value));
      }
    }
  }

  /** No two EVM accounts lead at once. */
  ghost predicate OneLeader(eq: EvmQueues)
    requires NonEmpty(eq)
  {
    forall a, b :: Best(E.Less, eq, a) && Best(E.Less, eq, b) ==> a == b
  }

  /** Where no two EVM heads tie, the iterator stops only when no step at all is allowed. */
  lemma StopsOnlyWhenStuck(r: Rules, e: Option<E.Head>, eq: EvmQueues, c: Option<C.Head>, cq: CosmosQueues, s: Step)
    requires NonEmpty(eq) && NonEmpty(cq) && LeadsEvm(e, eq) && LeadsCosmos(c, cq) && OneLeader(eq)
    requires Poised(r, e, c).None?
    ensures !Allowed(r, eq, cq, s)
  {
  }

  /**
   * The walk can end early: with no Cosmos tx and a leading EVM tx that does not convert, the iterator
   * stops and no step is allowed, although the second account's tx converts.
   */
  lemma EndsEarly(s: Step)
    ensures var bad, good := E.Head(E.LazyTx(1, 9, 9, 0), 1, 9), E.Head(E.LazyTx(2, 5, 5, 0), 2, 5);
            var r := Rules((tx: E.LazyTx) => tx.hash != 1, "", None);
            var eq: EvmQueues := map[1 := [bad], 2 := [good]];
            && NonEmpty(eq) && r.convertible(good.tx)
            && (forall e | LeadsEvm(e, eq) :: Poised(r, e, None).None?)
            && !Allowed(r, eq, map[], s)
  {
    var bad, good := E.Head(E.LazyTx(1, 9, 9, 0), 1, 9), E.Head(E.LazyTx(2, 5, 5, 0), 2, 5);
    var r := Rules((tx: E.LazyTx) => tx.hash != 1, "", None);
    var eq: EvmQueues := map[1 := [bad], 2 := [good]];
    assert E.Less(bad, good) && eq[1][0] == bad && eq[2][0] == good;
    assert !Best(E.Less, eq, 2);
    assert Best(E.Less, eq, 1);
    StopsOnlyWhenStuck(r, Some(bad), eq, None, map[], s);
  }

  /**
   * After a failed conversion a Cosmos tx can pass a convertible EVM tx of a higher tip: the leading EVM
   * tx does not convert, and a Cosmos tx without any tip is yielded although the second account's converts.
   */
  lemma CosmosPassesConvertible(c: C.Head)
    requires C.EffectiveTip(c.tx.tx, "", None) == 0
    ensures var bad, good := E.Head(E.LazyTx(1, 9, 9, 0), 1, 9), E.Head(E.LazyTx(2, 5, 5, 0), 2, 5);
            var r := Rules((tx: E.LazyTx) => tx.hash != 1, "", None);
            var eq: EvmQueues, cq: CosmosQueues := map[1 := [bad], 2 := [good]], map[c.signerKey := [c]];
            && NonEmpty(eq) && NonEmpty(cq) && r.convertible(good.tx) && good.fees > r.Tip(c)
            && (forall e | LeadsEvm(e, eq) :: Poised(r, e, Some(c)) == Some(YieldCosmos(c, Some(bad))))
            && Allowed(r, eq, cq, YieldCosmos(c, Some(bad)))
  {
    var bad, good := E.Head(E.LazyTx(1, 9, 9, 0), 1, 9), E.Head(E.LazyTx(2, 5, 5, 0), 2, 5);
    var eq: EvmQueues, cq: CosmosQueues := map[1 := [bad], 2 := [good]], map[c.signerKey := [c]];
    assert E.Less(bad, good) && eq[1][0] == bad && eq[2][0] == good && cq[c.signerKey][0] == c;
    assert !Best(E.Less, eq, 2);
    assert Best(E.Less, eq, 1);
    C.LessAsymmetric(c, c);
    assert Best(C.Less, cq, c.signerKey);
  }

  /**
   * With a tie it can stop where a step is allowed: both heads lead, and it looks only at the one its
   * heap has at the root.
   */
  lemma TiedLeaders(r: Rules, e: E.Head, other: E.Head, eq: EvmQueues)
    requires NonEmpty(eq) && LeadsEvm(Some(e), eq) && LeadsEvm(Some(other), eq)
    requires !r.convertible(e.tx) && r.convertible(other.tx)
    ensures Poised(r, Some(e), None).None? && Allowed(r, eq, map[], YieldEVM(other))
  {
  }

  /** EVMMempoolIterator. Either source may be absent. */
  class MempoolIterator {
    const evm: E.TransactionSet?
    var cosmos: C.Iterator?
    const rules: Rules
    var currentTx: Option<Out>
    var nextEVMAction: Action
    var nextCosmosAction: Action

    ghost predicate SourcesValid()
      reads this, evm, cosmos
    {
      (evm != null ==> evm.Valid()) && (cosmos != null ==> cosmos.Valid())
    }

    ghost function Evm(): (eq: EvmQueues)
      requires SourcesValid()
      reads this, evm, cosmos
      ensures NonEmpty(eq)
    {
      if evm == null then map[] else evm.queues
    }

    ghost function Cosmos(): (cq: CosmosQueues)
      requires SourcesValid()
      reads this, evm, cosmos
      ensures NonEmpty(cq) && KeyedBy(cq, C.KeyOf)
    {
      if cosmos == null then map[] else cosmos.queues
    }

    ghost function EvmHead(): Option<E.Head>
      reads this, evm
    {
      if evm == null || evm.heads == [] then None else Some(evm.heads[0])
    }

    ghost function CosmosHead(): Option<C.Head>
      reads this, cosmos
    {
      if cosmos == null || cosmos.heads == [] then None else Some(cosmos.heads[0])
    }

    /** The step that the next call of Next will complete. */
    ghost function Pending(): Option<Step>
      reads this, evm, cosmos
    {
      Poised(rules, EvmHead(), CosmosHead())
    }

    /** The cached tx and actions are the ones of the pending step. */
    ghost predicate Valid()
      reads this, evm, cosmos
    {
      && SourcesValid()
      && match Pending()
         case None => currentTx == None
         case Some(YieldEVM(h)) => currentTx == Some(FromEVM(h.tx)) && nextEVMAction == Advance &&
           nextCosmosAction == NoAction
         case Some(YieldCosmos(c, failed)) =>
           && currentTx == Some(FromCosmos(c.tx.tx)) && nextCosmosAction == Advance
           && nextEVMAction == (if failed.Some? then SkipAccount else NoAction)
    }

    constructor (evm: E.TransactionSet?, cosmos: C.Iterator?, rules: Rules)
      requires evm != null ==> evm.Valid()
      requires cosmos != null ==> cosmos.Valid()
      ensures this.evm == evm && this.cosmos == cosmos && this.rules == rules && SourcesValid()
      ensures nextEVMAction == NoAction && nextCosmosAction == NoAction
    {
      this.evm, this.cosmos, this.rules := evm, cosmos, rules;
      currentTx, nextEVMAction, nextCosmosAction := None, NoAction, NoAction;
    }

    lemma HeadsLead()
      requires SourcesValid()
      ensures LeadsEvm(EvmHead(), Evm()) && LeadsCosmos(CosmosHead(), Cosmos())
    {
      if evm != null { E.RootLeads(evm.heads, evm.txs, evm.baseFee, evm.queues); }
      if cosmos != null { C.RootLeads(cosmos.heads, cosmos.txs, cosmos.bondDenom, cosmos.baseFee, cosmos.queues); }
    }

    /** peekEVM. */
    method PeekEVM() returns (e: Option<E.Head>)
      requires SourcesValid()
      ensures e == EvmHead()
    {
      hide E.Holds, C.Holds;
      HeadsLead();
      if evm == null {
        return None;
      }
      e := evm.Peek();
    }

    /** peekCosmos: the current Cosmos tx with its effective tip. */
    method PeekCosmos() returns (c: Option<CosmosTx>, tip: nat)
      requires SourcesValid()
      ensures c.Some? <==> CosmosHead().Some?
      ensures c.Some? ==> c.value == CosmosHead().value.tx.tx && tip == rules.Tip(CosmosHead().value)
    {
      hide E.Holds, C.Holds, C.EffectiveTip;
      HeadsLead();
      c, tip := None, 0;
      if cosmos != null {
        c := cosmos.Tx();
        if c.Some? {
          tip := C.ExtractEffectiveTip(c.value, rules.denom, rules.baseFee);
        }
      }
    }

    /** resolveCurrentTx: pick the preferred tx of both sides and cache what Next must do. */
    method ResolveCurrentTx()
      requires SourcesValid()
      requires nextEVMAction == NoAction && nextCosmosAction == NoAction
      modifies this`currentTx, this`nextEVMAction, this`nextCosmosAction
      ensures Valid()
    {
      hide E.Holds, C.Holds, C.EffectiveTip;
      var e := PeekEVM();
      var c, tip := PeekCosmos();
      if e.None? && c.None? {
        nextEVMAction, nextCosmosAction, currentTx := NoAction, NoAction, None;
        return;
      }
      if ShouldSelectEVM(e, c, tip) {
        if rules.convertible(e.value.tx) {
          nextEVMAction, currentTx := Advance, Some(FromEVM(e.value.tx));
          return;
        }
        nextEVMAction := SkipAccount;
      }
      nextCosmosAction := Advance;
      currentTx := if c.Some? then Some(FromCosmos(c.value)) else None;
    }

    /** handleNextEVMAction. */
    method HandleNextEVMAction()
      requires SourcesValid() && (nextEVMAction != NoAction ==> EvmHead().Some?)
      modifies this`nextEVMAction, evm
      ensures SourcesValid() && nextEVMAction == NoAction
      ensures old(nextEVMAction) == NoAction ==> Evm() == old(Evm())
      ensures old(nextEVMAction) == Advance ==>
              Fire(E.Less, old(Evm()), Take(old(EvmHead()).value.from, old(EvmHead()).value)) == Some(Evm())
      ensures old(nextEVMAction) == SkipAccount ==>
              Fire(E.Less, old(Evm()), Skip(old(EvmHead()).value.from)) == Some(Evm())
    {
      hide E.Holds, C.Holds, Fire, E.Less;
      match nextEVMAction {
        case Advance => if evm != null { evm.Shift(); }
        case SkipAccount => if evm != null { evm.Pop(); }
        case NoAction =>
      }
      nextEVMAction := NoAction;
    }

    /** handleNextCosmosAction: an exhausted source is dropped. */
    method HandleNextCosmosAction()
      requires SourcesValid() && (nextCosmosAction == Advance ==> CosmosHead().Some?)
      modifies this`nextCosmosAction, this`cosmos, cosmos
      ensures SourcesValid() && nextCosmosAction == NoAction
      ensures cosmos == null || cosmos == old(cosmos)
      ensures old(nextCosmosAction) != Advance ==> Cosmos() == old(Cosmos())
      ensures old(nextCosmosAction) == Advance ==>
                Fire(C.Less, old(Cosmos()), Take(old(CosmosHead()).value.signerKey, old(CosmosHead()).value)) ==
                  Some(Cosmos())
    {
      hide E.Holds, C.Holds, Fire, C.Less;
      match nextCosmosAction {
        case Advance =>
          if cosmos != null {
            var more := cosmos.Next();
            if !more { cosmos := null; }
          }
        case SkipAccount =>
        case NoAction =>
      }
      nextCosmosAction := NoAction;
    }

    /** Next: complete the pending step on both sides, then settle on the next one. */
    method Next() returns (more: bool)
      requires Valid() && Pending().Some?
      modifies this, evm, cosmos
      ensures Valid() && (cosmos == null || cosmos == old(cosmos))
      ensures EvmAfter(old(Evm()), old(Pending()).value) == Some(Evm())
      ensures CosmosAfter(old(Cosmos()), old(Pending()).value) == Some(Cosmos())
      ensures more <==> Pending().Some?
    {
      hide E.Holds, C.Holds, Fire, C.EffectiveTip;
      HandleNextEVMAction();
      HandleNextCosmosAction();
      ResolveCurrentTx();
      return currentTx.Some?;
    }
  }

  /** Walking the merged iterator to its end: every yield is allowed, and the walk stops where a walk can be over. */
  method Collect(evm: E.TransactionSet?, cosmos: C.Iterator?, rules: Rules)
    returns (outs: seq<Out>, ghost ss: seq<Step>, ghost left: Left)
    requires evm != null ==> evm.Valid()
    requires cosmos != null ==> cosmos.Valid()
    modifies evm, cosmos
    ensures var eq: EvmQueues := if evm == null then map[] else old(evm.queues);
            var cq: CosmosQueues := if cosmos == null then map[] else old(cosmos.queues);
            && NonEmpty(eq) && NonEmpty(cq)
            && RunMerge(rules, eq, cq, ss) == Some(left) && Ended(rules, left)
            && outs == Outs(ss)
  {
    hide E.Holds, C.Holds, Fire, Best, EvmAfter, CosmosAfter, Allowed, Ended, KeyedBy;
    var it := new MempoolIterator(evm, cosmos, rules);
    it.ResolveCurrentTx();
    ghost var eq, cq := it.Evm(), it.Cosmos();
    outs, ss := [], [];
    while it.currentTx.Some?
      invariant fresh(it) && it.evm == evm && it.rules == rules && (it.cosmos == null || it.cosmos == cosmos)
      invariant it.Valid()
      invariant RunMerge(rules, eq, cq, ss) == Some(Left(it.Evm(), it.Cosmos()))
      invariant outs == Outs(ss)
      decreases Total(it.Evm()) + Total(it.Cosmos())
    {
      outs := outs + [it.currentTx.value];
      ghost var s := it.Pending().value;
      it.HeadsLead();
      PoisedIsAllowed(rules, it.EvmHead(), it.Evm(), it.CosmosHead(), it.Cosmos());
      AllowedSteps(rules, it.Evm(), it.Cosmos(), s);
      AfterYieldEVM(it.Cosmos(), s);
      StepsGrow(ss, s);
      ss := ss + [s];
      var more := it.Next();
    }
    left := Left(it.Evm(), it.Cosmos());
    it.HeadsLead();
    PoisedIsAllowed(rules, it.EvmHead(), it.Evm(), it.CosmosHead(), it.Cosmos());
  }

  lemma AfterYieldEVM(cq: CosmosQueues, s: Step)
    requires NonEmpty(cq)
    ensures s.YieldEVM? ==> CosmosAfter(cq, s) == Some(cq)
  {
  }
}
