/**
 * The reset loop of the pool coordinator (mempool/txpool/txpool.go): one loop, reset goroutines,
 * chain head events, Sync callers and a quit. Heads are compared by identity; Sync calls are
 * numbered in the order the loop accepts them, resets in the order they start.
 */
module TxPoolLoop {
  import opened Common

  type Head = nat

  /** At the reset check, in the select, or terminated. */
  datatype Place = AtTop | InSelect | Exited

  datatype Reset = Reset(index: nat, from: Head, to: Head)

  /** A Sync caller is told nil right after the reset of that index completed, or an error at termination. */
  datatype Answer = Done(after: nat) | Terminated

  datatype State = State(
    place: Place, oldHead: Head, newHead: Head, resetForced: bool, resetWaiter: Option<nat>, resetBusy: bool,
    /** Reset goroutines, and whether each has finished its work and offers its result. */
    live: map<Reset, bool>,
    /** History: resets started, whether a head arrived since the last start, Sync calls with the number of
        resets started when each was accepted, their answers, and the ones overwritten by a later Sync. */
    resets: seq<Reset>, headSinceStart: bool, syncs: seq<nat>, answers: map<nat, Answer>, overwritten: set<nat>)

  datatype Event =
    | ResetCheck              // the top of the loop
    | NewHead(head: Head)     // case event := <-newHeadCh
    | WorkDone(r: Reset)      // the goroutine has reset every subpool
    | SeeReset(r: Reset)      // case head := <-resetDone
    | Sync                    // case syncc := <-p.sync
    | Quit                    // case errc = <-p.quit, with the deferred notification
    | GoroutineLeaves(r: Reset)

  predicate Enabled(s: State, e: Event) {
    match e
    case ResetCheck => s.place == AtTop
    case NewHead(_) => s.place == InSelect
    case WorkDone(r) => r in s.live && !s.live[r]
    case SeeReset(r) => s.place == InSelect && r in s.live && s.live[r]
    case Sync => s.place == InSelect
    case Quit => s.place == InSelect
    case GoroutineLeaves(r) => s.place == Exited && r in s.live && s.live[r]
  }

  /** The subpools are told to cancel: a reset is due while another is running, and the heads differ. */
  predicate CancelSent(s: State) {
    s.place == AtTop && s.resetBusy && s.newHead != s.oldHead
  }

  function StartReset(s: State): State {
    var r := Reset(|s.resets|, s.oldHead, s.newHead);
    s.(resetBusy := true, live := s.live[r := false], resets := s.resets + [r],
       resetForced := false, headSinceStart := false)
  }

  function Apply(s: State, e: Event): (r: State)
    requires Enabled(s, e)
  {
    match e
    case ResetCheck =>
      (if (s.newHead != s.oldHead || s.resetForced) && !s.resetBusy then StartReset(s) else s).(place := InSelect)
    case NewHead(h) => s.(newHead := h, headSinceStart := true, place := AtTop)
    case WorkDone(r) => s.(live := s.live[r := true])
    case SeeReset(r) =>
      var s1 := s.(oldHead := r.to, resetBusy := false, live := s.live - {r}, place := AtTop);
      if s.resetWaiter.Some? && !s.resetForced
      then s1.(answers := s.answers[s.resetWaiter.value := Done(r.index)], resetWaiter := None)
      else s1
    case Sync =>
      s.(resetForced := true, resetWaiter := Some(|s.syncs|), syncs := s.syncs + [|s.resets|], place := AtTop,
         overwritten := s.overwritten + if s.resetWaiter.Some? then {s.resetWaiter.value} else {})
    case Quit =>
      var s1 := s.(place := Exited);
      if s.resetWaiter.Some?
      then s1.(answers := s.answers[s.resetWaiter.value := Terminated], resetWaiter := None)
      else s1
    case GoroutineLeaves(r) => s.(live := s.live - {r})
  }

  function Start(head: Head): State {
    State(AtTop, head, head, false, None, false, map[], [], false, [], map[], {})
  }

  function Run(head: Head, es: seq<Event>): (r: Option<State>) {
    if es == [] then Some(Start(head))
    else
      var before := Run(head, es[..|es| - 1]);
      if before.Some? && Enabled(before.value, es[|es| - 1]) then Some(Apply(before.value, es[|es| - 1])) else None
  }

  // --- What holds in every reachable state ---

  /** The head the pool had been reset to before reset i. */
  function ResetTo(head: Head, resets: seq<Reset>): Head {
    if resets == [] then head else resets[|resets| - 1].to
  }

  /** Resets are numbered in order and chained: each starts from where the one before it ended. */
  ghost predicate Chained(head: Head, resets: seq<Reset>) {
    forall i :: 0 <= i < |resets| ==> resets[i].index == i && resets[i].from == ResetTo(head, resets[..i])
  }

  ghost predicate ResetInv(head: Head, s: State) {
    && Chained(head, s.resets)
    && (forall r | r in s.live :: s.resets != [] && r == s.resets[|s.resets| - 1] && s.resetBusy && r.from == s.oldHead)
    && (!s.resetBusy ==> s.oldHead == ResetTo(head, s.resets))
    && (s.place == InSelect && !s.resetBusy ==> s.newHead == s.oldHead && !s.resetForced)
    && (s.place != Exited ==> (s.resetBusy <==> exists r :: r in s.live))
    && (s.place != Exited && s.resetBusy && !s.headSinceStart ==> ResetTo(head, s.resets) == s.newHead)
    && (s.place == AtTop && s.resetBusy && !s.headSinceStart ==> s.resetForced)
  }

  ghost predicate SyncInv(s: State) {
    && (forall w | 0 <= w < |s.syncs| :: s.syncs[w] <= |s.resets|)
    && (s.resetWaiter.Some? ==> 0 <= s.resetWaiter.value == |s.syncs| - 1)
    && (s.resetWaiter.Some? && !s.resetForced ==> s.syncs[s.resetWaiter.value] < |s.resets| && s.resetBusy)
    && (forall w | w in s.answers :: w < |s.syncs| && s.resetWaiter != Some(w) && w !in s.overwritten)
    && (forall w | w in s.answers && s.answers[w].Done? :: s.syncs[w] <= s.answers[w].after < |s.resets|
          && (s.resetBusy ==> s.answers[w].after < |s.resets| - 1 || s.live == map[]))
    && (forall w | w in s.overwritten :: w + 1 < |s.syncs|)
    && (forall w | 0 <= w < |s.syncs| :: w in s.answers || w in s.overwritten || s.resetWaiter == Some(w))
    && (s.place == Exited ==> s.resetWaiter == None)
  }

  ghost predicate Inv(head: Head, s: State) {
    ResetInv(head, s) && SyncInv(s)
  }

  lemma CheckKeepsInv(head: Head, s: State)
    requires Inv(head, s) && Enabled(s, ResetCheck)
    ensures Inv(head, Apply(s, ResetCheck))
  {
    CheckKeepsResets(head, s);
    CheckKeepsSyncs(head, s);
  }

  lemma CheckKeepsSyncs(head: Head, s: State)
    requires Inv(head, s) && Enabled(s, ResetCheck)
    ensures SyncInv(Apply(s, ResetCheck))
  {
  }

  lemma CheckKeepsResets(head: Head, s: State)
    requires ResetInv(head, s) && Enabled(s, ResetCheck)
    ensures ResetInv(head, Apply(s, ResetCheck))
  {
    var r := Apply(s, ResetCheck);
    if (s.newHead != s.oldHead || s.resetForced) && !s.resetBusy {
      var started := Reset(|s.resets|, s.oldHead, s.newHead);
      forall i | 0 <= i < |r.resets|
        ensures r.resets[i].index == i && r.resets[i].from == ResetTo(head, r.resets[..i])
      {
        assert r.resets[..i] == s.resets[..i];
        if i == |s.resets| { assert s.resets[..i] == s.resets; }
      }
      assert started in r.live;
    }
  }

  lemma SeeResetKeepsInv(head: Head, s: State, e: Event)
    requires Inv(head, s) && Enabled(s, e) && e.SeeReset?
    ensures Inv(head, Apply(s, e))
  {
    var r := Apply(s, e);
    assert r.live == map[] by {
      forall q | q in r.live ensures false {
        assert q in s.live;
      }
    }
  }

  lemma NewHeadKeepsInv(head: Head, s: State, e: Event)
    requires Inv(head, s) && Enabled(s, e) && e.NewHead?
    ensures Inv(head, Apply(s, e))
  {
    var r := Apply(s, e);
    if s.resetBusy {
      var q :| q in s.live;
      assert q in r.live;
    }
  }

  lemma WorkDoneKeepsInv(head: Head, s: State, e: Event)
    requires Inv(head, s) && Enabled(s, e) && e.WorkDone?
    ensures Inv(head, Apply(s, e))
  {
    var r := Apply(s, e);
    assert forall q :: q in r.live <==> q in s.live;
  }

  lemma SyncKeepsInv(head: Head, s: State, e: Event)
    requires Inv(head, s) && Enabled(s, e) && e.Sync?
    ensures Inv(head, Apply(s, e))
  {
    var r := Apply(s, e);
    if s.resetBusy {
      var q :| q in s.live;
      assert q in r.live;
    }
  }

  lemma QuitKeepsInv(head: Head, s: State, e: Event)
    requires Inv(head, s) && Enabled(s, e) && e.Quit?
    ensures Inv(head, Apply(s, e))
  {
    QuitKeepsResets(head, s);
    QuitAnswers(s);
  }

  lemma QuitKeepsResets(head: Head, s: State)
    requires ResetInv(head, s) && Enabled(s, Quit)
    ensures ResetInv(head, Apply(s, Quit))
  {
    hide Chained, ResetTo;
    var r := Apply(s, Quit);
    assert r.resets == s.resets && r.live == s.live && r.resetBusy == s.resetBusy && r.oldHead == s.oldHead;
    assert r.place == Exited;
  }

  lemma QuitAnswers(s: State)
    requires SyncInv(s) && Enabled(s, Quit)
    ensures SyncInv(Apply(s, Quit))
  {
  }

  lemma GoroutineLeavesKeepsInv(head: Head, s: State, e: Event)
    requires Inv(head, s) && Enabled(s, e) && e.GoroutineLeaves?
    ensures Inv(head, Apply(s, e))
  {
  }

  lemma {:induction false} AlwaysInv(head: Head, es: seq<Event>)
    requires Run(head, es).Some?
    ensures Inv(head, Run(head, es).value)
  {
    if es != [] {
      var front, e := es[..|es| - 1], es[|es| - 1];
      AlwaysInv(head, front);
      match e
      case ResetCheck => CheckKeepsInv(head, Run(head, front).value);
      case SeeReset(_) => SeeResetKeepsInv(head, Run(head, front).value, e);
      case NewHead(_) => NewHeadKeepsInv(head, Run(head, front).value, e);
      case WorkDone(_) => WorkDoneKeepsInv(head, Run(head, front).value, e);
      case Sync => SyncKeepsInv(head, Run(head, front).value, e);
      case Quit => QuitKeepsInv(head, Run(head, front).value, e);
      case GoroutineLeaves(_) => GoroutineLeavesKeepsInv(head, Run(head, front).value, e);
    }
  }

  /** At most one reset is live, and each reset started from the head the one before it ended at. */
  lemma ResetsAreSerial(head: Head, es: seq<Event>, i: nat)
    requires Run(head, es).Some? && i < |Run(head, es).value.resets|
    ensures var s := Run(head, es).value;
            && |s.live| <= 1
            && s.resets[i].from == if i == 0 then head else s.resets[i - 1].to
  {
    AlwaysInv(head, es);
    var s := Run(head, es).value;
    if s.live != map[] {
      var r :| r in s.live;
      assert s.live.Keys == {r};
    }
  }

  /** h is the head of the last chain head event, or the one the loop started from when there was none. */
  ghost predicate IsNewest(head: Head, es: seq<Event>, h: Head) {
    || (h == head && forall i :: 0 <= i < |es| ==> !es[i].NewHead?)
    || (exists i :: 0 <= i < |es| && es[i] == NewHead(h) && forall j :: i < j < |es| ==> !es[j].NewHead?)
  }

  lemma NewestOneMore(head: Head, es: seq<Event>, h: Head)
    requires es != []
    requires if es[|es| - 1].NewHead? then es[|es| - 1].head == h else IsNewest(head, es[..|es| - 1], h)
    ensures IsNewest(head, es, h)
  {
    var front, e := es[..|es| - 1], es[|es| - 1];
    if !e.NewHead? {
      assert forall i :: 0 <= i < |front| ==> front[i] == es[i];
      if i :| 0 <= i < |front| && front[i] == NewHead(h) && forall j :: i < j < |front| ==> !front[j].NewHead? {
        assert es[i] == NewHead(h);
      }
    }
  }

  lemma {:induction false} NewHeadIsNewest(head: Head, es: seq<Event>)
    requires Run(head, es).Some?
    ensures IsNewest(head, es, Run(head, es).value.newHead)
  {
    hide IsNewest, Apply, Enabled;
    if es == [] {
      NothingNewer(head);
    } else {
      NewHeadIsNewest(head, es[..|es| - 1]);
      NewHeadStep(Run(head, es[..|es| - 1]).value, es[|es| - 1]);
      NewestOneMore(head, es, Run(head, es).value.newHead);
    }
  }

  lemma NewHeadStep(s: State, e: Event)
    requires Enabled(s, e)
    ensures Apply(s, e).newHead == if e.NewHead? then e.head else s.newHead
  {
  }

  lemma NothingNewer(head: Head)
    ensures IsNewest(head, [], head)
  {
  }

  /**
   * Whenever the loop waits with no reset running, the pool is at the newest head, no forced reset is
   * due and no Sync waits.
   */
  lemma IdleMeansUpToDate(head: Head, es: seq<Event>)
    requires Run(head, es).Some? && Run(head, es).value.place == InSelect && Run(head, es).value.live == map[]
    ensures var s := Run(head, es).value;
            && s.newHead == s.oldHead == ResetTo(head, s.resets) && IsNewest(head, es, s.oldHead)
            && !s.resetForced && s.resetWaiter == None
  {
    AlwaysInv(head, es);
    NewHeadIsNewest(head, es);
  }

  /** A Sync is answered without error only after the completion of a reset that started after it was accepted. */
  lemma SyncSeesALaterReset(head: Head, es: seq<Event>, w: nat)
    requires Run(head, es).Some? && w in Run(head, es).value.answers && Run(head, es).value.answers[w].Done?
    ensures var s := Run(head, es).value;
            var j := s.answers[w].after;
            w < |s.syncs| && s.syncs[w] <= j < |s.resets| && s.resets[j] !in s.live
  {
    AlwaysInv(head, es);
  }

  /** Every accepted Sync is answered, still waiting, or overwritten; at termination nobody is left waiting. */
  lemma SyncIsAccountedFor(head: Head, es: seq<Event>, w: nat)
    requires Run(head, es).Some? && w < |Run(head, es).value.syncs|
    ensures var s := Run(head, es).value;
            && (w in s.answers || w in s.overwritten || s.resetWaiter == Some(w))
            && !(w in s.answers && w in s.overwritten)
            && (s.place == Exited ==> w in s.answers || w in s.overwritten)
  {
    AlwaysInv(head, es);
  }

  /** No Sync was accepted while another was waiting. */
  ghost predicate OneWaiter(head: Head, es: seq<Event>) {
    forall i | 0 <= i < |es| && es[i] == Sync ::
      Run(head, es[..i]).Some? && Run(head, es[..i]).value.resetWaiter == None
  }

  lemma OverwrittenStep(s: State, e: Event)
    requires Enabled(s, e)
    ensures var lost := if e == Sync && s.resetWaiter.Some? then {s.resetWaiter.value} else {};
            Apply(s, e).overwritten == s.overwritten + lost
  {
  }

  /** A Sync is overwritten exactly when some Sync was accepted while another was waiting. */
  lemma {:induction false} OverwrittenIff(head: Head, es: seq<Event>)
    requires Run(head, es).Some?
    ensures Run(head, es).value.overwritten == {} <==> OneWaiter(head, es)
  {
    if es != [] {
      hide Apply, Enabled;
      var front, e := es[..|es| - 1], es[|es| - 1];
      OverwrittenIff(head, front);
      OverwrittenStep(Run(head, front).value, e);
      forall i | 0 <= i < |es| ensures es[..i] == front[..i] { }
      assert front[..|front|] == front;
      assert forall i :: 0 <= i < |front| ==> es[i] == front[i];
      assert OneWaiter(head, es) <==>
        OneWaiter(head, front) && (e == Sync ==> Run(head, front).value.resetWaiter == None);
      var w := Run(head, front).value.resetWaiter;
      if e == Sync && w.Some? { assert w.value in Run(head, es).value.overwritten; }
    }
  }

  /** That does happen: two Sync calls before the first one's reset is seen. */
  lemma SyncIsOverwritten()
    ensures var s := Run(0, [ResetCheck, Sync, ResetCheck, Sync]); s.Some? && 0 in s.value.overwritten
  {
    var e0, e1, e2 := [ResetCheck], [ResetCheck, Sync], [ResetCheck, Sync, ResetCheck];
    var e3 := [ResetCheck, Sync, ResetCheck, Sync];
    assert e0[..0] == [] && e1[..1] == e0 && e2[..2] == e1 && e3[..3] == e2;
    assert Run(0, []).Some?;
    assert Run(0, e0).Some? && Run(0, e1).Some? && Run(0, e2).Some?;
  }

  /**
   * The subpools may be told to cancel a reset that is already working on the newest head. When no
   * head arrived since the running reset started, the loop was woken by a Sync, and the cancel is
   * sent exactly when that reset moves the pool to a different head.
   */
  lemma SpuriousCancel(head: Head, es: seq<Event>, r: Reset)
    requires Run(head, es).Some?
    requires var s := Run(head, es).value; s.place == AtTop && r in s.live && !s.headSinceStart
    ensures var s := Run(head, es).value;
            && r.to == s.newHead && IsNewest(head, es, r.to)
            && s.resetForced && (CancelSent(s) <==> r.to != r.from)
  {
    AlwaysInv(head, es);
    NewHeadIsNewest(head, es);
  }

  /** Such a cancel does happen: a new head, its reset started, then a Sync. */
  lemma SpuriousCancelHappens()
    ensures var s := Run(0, [ResetCheck, NewHead(1), ResetCheck, Sync]);
            s.Some? && CancelSent(s.value) && Reset(0, 0, 1) in s.value.live && s.value.newHead == 1
  {
    var e0, e1, e2 := [ResetCheck], [ResetCheck, NewHead(1)], [ResetCheck, NewHead(1), ResetCheck];
    var e3 := [ResetCheck, NewHead(1), ResetCheck, Sync];
    assert e0[..0] == [] && e1[..1] == e0 && e2[..2] == e1 && e3[..3] == e2;
    assert Run(0, []).Some?;
    assert Run(0, e0).Some? && Run(0, e1).Some? && Run(0, e2).Some?;
  }
}
