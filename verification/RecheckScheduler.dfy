/**
 * The recheck scheduling protocol (mempool/recheck_pool.go): one loop, at most one recheck
 * goroutine, callers of TriggerRecheck, and a shutdown. Channels are numbered in the order they
 * are made; requests are numbered in the order the loop accepts them, and a number stands for
 * the head it asked for.
 */
module RecheckScheduler {
  import opened Common

  type Chan = nat

  /** Where the loop is: before the launch check, in its select, about to hand nextDone to the
      caller of the given request, waiting out the last recheck, or gone. */
  datatype Place = AtTop | InSelect | HandingOut(req: nat) | Draining | Exited

  /** A running recheck: the channel it will close, the request it serves, its cancel channel. */
  datatype Recheck = Recheck(done: Chan, req: nat, cancel: Chan)

  datatype State = State(
    // the loop's variables
    place: Place, curDone: Option<Chan>, nextDone: Chan, launchNextRun: bool,
    recheckReq: Option<nat>, cancelCh: Option<Chan>,
    // goroutines and channels
    live: set<Recheck>, closed: set<Chan>, closedTwice: bool, made: nat, shutdown: bool,
    // history: requests accepted, the channel each caller got, the request each recheck was launched for, rechecks
    // that ended
    requests: nat, handed: map<nat, Chan>, launched: map<Chan, nat>, ended: set<Chan>)

  /** Closing a channel; a second close of the same channel would panic. */
  function Close(s: State, c: Chan): State {
    s.(closed := s.closed + {c}, closedTwice := s.closedTwice || c in s.closed)
  }

  function CloseIfAny(s: State, c: Option<Chan>): State {
    if c.Some? then Close(s, c.value) else s
  }

  datatype Event =
    | LaunchCheck           // the top of the loop
    | Request               // case req := <-reqRecheckCh
    | HandOut               // recheckDoneCh <- nextDone
    | SeeDone               // case <-curDone
    | SeeShutdown           // case <-shutdownCh
    | Drained               // <-curDone during shutdown
    | RecheckEnds(r: Recheck)
    | CallClose             // Close
    | LateRequest           // TriggerRecheck after the loop is gone

  predicate Enabled(s: State, e: Event) {
    match e
    case LaunchCheck => s.place == AtTop
    case Request => s.place == InSelect
    case HandOut => s.place.HandingOut?
    case SeeDone => s.place == InSelect && s.curDone.Some? && s.curDone.value in s.closed
    case SeeShutdown => s.place == InSelect && s.shutdown
    case Drained => s.place == Draining && s.curDone.Some? && s.curDone.value in s.closed
    case RecheckEnds(r) => r in s.live
    case CallClose => true
    case LateRequest => s.place == Exited
  }

  function Launch(s: State): State
    requires s.recheckReq.Some?
  {
    s.(cancelCh := Some(s.made),
       live := s.live + {Recheck(s.nextDone, s.recheckReq.value, s.made)},
       launched := s.launched[s.nextDone := s.recheckReq.value],
       curDone := Some(s.nextDone), nextDone := s.made + 1, made := s.made + 2,
       launchNextRun := false, recheckReq := None)
  }

  function Apply(s: State, e: Event): (r: State)
    requires Enabled(s, e)
  {
    match e
    case LaunchCheck =>
      (if s.curDone.None? && s.launchNextRun && s.recheckReq.Some? then Launch(s) else s).(place := InSelect)
    case Request =>
      var s1 := if s.curDone.Some? && s.cancelCh.Some? then CloseIfAny(s, s.cancelCh).(cancelCh := None) else s;
      s1.(recheckReq := Some(s.requests), launchNextRun := true, requests := s.requests + 1,
          place := HandingOut(s.requests))
    case HandOut => s.(handed := s.handed[s.place.req := s.nextDone], place := AtTop)
    case SeeDone => s.(curDone := None, cancelCh := None, place := AtTop)
    case SeeShutdown =>
      if s.curDone.Some? then CloseIfAny(s, s.cancelCh).(place := Draining)
      else Close(s, s.nextDone).(place := Exited)
    case Drained => Close(s, s.nextDone).(place := Exited)
    case RecheckEnds(r) => Close(s, r.done).(live := s.live - {r}, ended := s.ended + {r.done})
    case CallClose => s.(shutdown := true)
    case LateRequest =>
      Close(s, s.made).(made := s.made + 1, handed := s.handed[s.requests := s.made], requests := s.requests + 1)
  }

  const START: State :=
    State(AtTop, None, 0, false, None, None, {}, {}, false, 1, false, 0, map[], map[], {})

  function Run(es: seq<Event>): (r: Option<State>) {
    if es == [] then Some(START)
    else
      var before := Run(es[..|es| - 1]);
      if before.Some? && Enabled(before.value, es[|es| - 1]) then Some(Apply(before.value, es[|es| - 1])) else None
  }

  // --- What holds in every reachable state ---

  /** The loop's own variables. */
  ghost predicate LoopInv(s: State) {
    && s.nextDone < s.made && s.nextDone !in s.launched
    && (s.place != Exited ==> s.nextDone !in s.closed)
    && (s.launchNextRun <==> s.recheckReq.Some?)
    && (s.recheckReq.Some? && s.place != Exited ==> s.recheckReq.value == s.requests - 1)
    && (s.place.HandingOut? ==> s.launchNextRun && s.place.req == s.requests - 1)
    && (s.place == InSelect && s.launchNextRun ==> s.curDone.Some?)
    && (s.place == Draining ==> s.curDone.Some?)
    && (s.curDone.Some? ==> s.curDone.value in s.launched)
    && (s.cancelCh.Some? && s.place != Draining && s.place != Exited ==>
          s.curDone.Some? && s.cancelCh.value < s.made && s.cancelCh.value !in s.closed
          && s.cancelCh.value != s.nextDone && s.cancelCh.value !in s.launched)
  }

  /** The recheck goroutines: the only one there can be is the one curDone stands for, until it ends. */
  ghost predicate RecheckInv(s: State) {
    && (forall r | r in s.live :: s.curDone == Some(r.done) && r.done !in s.closed && r.done !in s.ended
          && r.done in s.launched && s.launched[r.done] == r.req)
    && (forall r, q | r in s.live && q in s.live :: r == q)
    && (s.curDone.Some? && s.curDone.value !in s.closed ==> exists r :: r in s.live)
    && (forall c | c in s.launched :: c < s.made && s.launched[c] < s.requests
          && (c in s.closed <==> c in s.ended) && (s.curDone == Some(c) || c in s.ended))
    && (forall c | c in s.ended :: c in s.launched)
    && (forall c | c in s.closed :: c < s.made)
    && (s.place == Exited ==> s.live == {} && s.nextDone in s.closed)
  }

  /** The channels callers hold. */
  ghost predicate CallerInv(s: State) {
    && (forall i :: i in s.handed ==> i < s.requests)
    && (forall i :: 0 <= i < s.requests && s.place != HandingOut(i) ==> i in s.handed)
    && (forall i | i in s.handed ::
          var c := s.handed[i];
          && c < s.made
          && (c in s.launched ==> s.launched[c] >= i)
          && (c == s.nextDone && s.place != Exited ==> s.launchNextRun)
          && (c in s.launched || c == s.nextDone || (s.place == Exited && c in s.closed)))
  }

  ghost predicate Inv(s: State) {
    LoopInv(s) && RecheckInv(s) && CallerInv(s) && !s.closedTwice
  }

  lemma LaunchKeepsInv(s: State)
    requires Inv(s) && Enabled(s, LaunchCheck)
    ensures Inv(Apply(s, LaunchCheck))
  {
    LaunchKeepsRechecks(s);
    LaunchKeepsRest(s);
  }

  lemma LaunchKeepsRest(s: State)
    requires Inv(s) && Enabled(s, LaunchCheck)
    ensures LoopInv(Apply(s, LaunchCheck)) && CallerInv(Apply(s, LaunchCheck)) && !Apply(s, LaunchCheck).closedTwice
  {
  }

  lemma LaunchKeepsRechecks(s: State)
    requires LoopInv(s) && RecheckInv(s) && Enabled(s, LaunchCheck)
    ensures RecheckInv(Apply(s, LaunchCheck))
  {
    if s.curDone.None? && s.launchNextRun && s.recheckReq.Some? {
      var r := Apply(s, LaunchCheck);
      assert forall q :: q in s.live ==> s.curDone == Some(q.done);
      var started := Recheck(s.nextDone, s.recheckReq.value, s.made);
      assert r.live == {started};
      assert started in r.live;
    }
  }

  lemma RequestKeepsInv(s: State)
    requires Inv(s) && Enabled(s, Request)
    ensures Inv(Apply(s, Request))
  {
    RequestKeepsLoop(s);
    RequestKeepsRechecks(s);
    RequestKeepsCallers(s);
  }

  lemma RequestKeepsLoop(s: State)
    requires LoopInv(s) && RecheckInv(s) && Enabled(s, Request)
    ensures LoopInv(Apply(s, Request)) && Apply(s, Request).closedTwice == s.closedTwice
  {
  }

  lemma RequestKeepsRechecks(s: State)
    requires LoopInv(s) && RecheckInv(s) && Enabled(s, Request)
    ensures RecheckInv(Apply(s, Request))
  {
  }

  lemma RequestKeepsCallers(s: State)
    requires LoopInv(s) && CallerInv(s) && Enabled(s, Request)
    ensures CallerInv(Apply(s, Request))
  {
  }

  lemma HandOutKeepsInv(s: State)
    requires Inv(s) && Enabled(s, HandOut)
    ensures Inv(Apply(s, HandOut))
  {
  }

  lemma SeeDoneKeepsInv(s: State)
    requires Inv(s) && Enabled(s, SeeDone)
    ensures Inv(Apply(s, SeeDone))
  {
  }

  lemma SeeShutdownKeepsInv(s: State)
    requires Inv(s) && Enabled(s, SeeShutdown)
    ensures Inv(Apply(s, SeeShutdown))
  {
    SeeShutdownKeepsLoop(s);
    SeeShutdownKeepsRechecks(s);
    SeeShutdownKeepsCallers(s);
  }

  lemma SeeShutdownKeepsLoop(s: State)
    requires LoopInv(s) && Enabled(s, SeeShutdown)
    ensures LoopInv(Apply(s, SeeShutdown)) && Apply(s, SeeShutdown).closedTwice == s.closedTwice
  {
  }

  lemma SeeShutdownKeepsRechecks(s: State)
    requires LoopInv(s) && RecheckInv(s) && Enabled(s, SeeShutdown)
    ensures RecheckInv(Apply(s, SeeShutdown))
  {
  }

  lemma SeeShutdownKeepsCallers(s: State)
    requires LoopInv(s) && CallerInv(s) && Enabled(s, SeeShutdown)
    ensures CallerInv(Apply(s, SeeShutdown))
  {
  }

  lemma DrainedKeepsInv(s: State)
    requires Inv(s) && Enabled(s, Drained)
    ensures Inv(Apply(s, Drained))
  {
  }

  lemma CallCloseKeepsInv(s: State)
    requires Inv(s)
    ensures Inv(Apply(s, CallClose))
  {
  }

  lemma EndKeepsInv(s: State, e: Event)
    requires Inv(s) && Enabled(s, e) && e.RecheckEnds?
    ensures Inv(Apply(s, e))
  {
    assert s.live == {e.r} by {
      forall q | q in s.live ensures q in {e.r} {}
    }
  }

  lemma LateRequestKeepsInv(s: State)
    requires Inv(s) && Enabled(s, LateRequest)
    ensures Inv(Apply(s, LateRequest))
  {
  }

  lemma StepKeepsInv(s: State, e: Event)
    requires Inv(s) && Enabled(s, e)
    ensures Inv(Apply(s, e))
  {
    match e
    case LaunchCheck => LaunchKeepsInv(s);
    case Request => RequestKeepsInv(s);
    case HandOut => HandOutKeepsInv(s);
    case SeeDone => SeeDoneKeepsInv(s);
    case SeeShutdown => SeeShutdownKeepsInv(s);
    case Drained => DrainedKeepsInv(s);
    case RecheckEnds(_) => EndKeepsInv(s, e);
    case CallClose => CallCloseKeepsInv(s);
    case LateRequest => LateRequestKeepsInv(s);
  }

  lemma {:induction false} AlwaysInv(es: seq<Event>)
    requires Run(es).Some?
    ensures Inv(Run(es).value)
  {
    if es != [] {
      AlwaysInv(es[..|es| - 1]);
      StepKeepsInv(Run(es[..|es| - 1]).value, es[|es| - 1]);
    }
  }

  /** At most one recheck is ever live, and no channel is ever closed twice. */
  lemma OneRecheckAtATime(es: seq<Event>)
    requires Run(es).Some?
    ensures |Run(es).value.live| <= 1 && !Run(es).value.closedTwice
  {
    AlwaysInv(es);
    var s := Run(es).value;
    if s.live != {} {
      var r :| r in s.live;
      assert s.live == {r} by {
        forall q | q in s.live ensures q in {r} {}
      }
    }
  }

  /**
   * A channel handed to the caller of request i is closed, or is the running recheck's, or is the
   * pending one with a launch already due; it is closed only after a recheck launched for request
   * i or a later one has ended, or because the loop is gone. A gone loop leaves no caller waiting.
   */
  lemma CallersAreServed(es: seq<Event>, i: nat)
    requires Run(es).Some? && i in Run(es).value.handed
    ensures var s := Run(es).value;
            var c := s.handed[i];
            && (c in s.closed || s.curDone == Some(c) || (c == s.nextDone && s.launchNextRun))
            && (c in s.closed ==> (c in s.ended && c in s.launched && s.launched[c] >= i) || s.place == Exited)
            && (s.place == Exited ==> c in s.closed)
  {
    AlwaysInv(es);
  }

  // --- Cancellation ---

  /** A live recheck has its own cancel channel, closed exactly when a newer request or the shutdown was seen. */
  ghost predicate CancelInv(s: State) {
    forall r | r in s.live ::
      && r.cancel < s.made && r.cancel !in s.launched && r.cancel != s.nextDone
      && (r.cancel in s.closed <==> s.recheckReq.Some? || s.place == Draining)
      && (r.cancel !in s.closed ==> s.cancelCh == Some(r.cancel))
  }

  lemma StepKeepsCancel(s: State, e: Event)
    requires Inv(s) && CancelInv(s) && Enabled(s, e)
    ensures CancelInv(Apply(s, e))
  {
    var s' := Apply(s, e);
    forall r | r in s'.live
      ensures r.cancel < s'.made && r.cancel !in s'.launched && r.cancel != s'.nextDone
      ensures r.cancel in s'.closed <==> s'.recheckReq.Some? || s'.place == Draining
      ensures r.cancel !in s'.closed ==> s'.cancelCh == Some(r.cancel)
    {
      assert r in s.live || e == LaunchCheck;
    }
  }

  lemma {:induction false} AlwaysCancelInv(es: seq<Event>)
    requires Run(es).Some?
    ensures CancelInv(Run(es).value)
  {
    hide Inv, CancelInv;
    if es == [] {
      NothingToCancel();
    } else {
      var front := es[..|es| - 1];
      AlwaysInv(front);
      AlwaysCancelInv(front);
      StepKeepsCancel(Run(front).value, es[|es| - 1]);
    }
  }

  lemma NothingToCancel()
    ensures CancelInv(START)
  {
  }

  /**
   * A live recheck is told to cancel exactly when a request newer than the one it was launched for was
   * accepted, or the loop is shutting down.
   */
  lemma CancelledIff(es: seq<Event>, r: Recheck)
    requires Run(es).Some? && r in Run(es).value.live
    ensures var s := Run(es).value;
            r.cancel in s.closed <==> r.req < s.requests - 1 || s.place == Draining
  {
    AlwaysInv(es);
    AlwaysCancelInv(es);
    NewestServed(es, r);
  }

  /** Without a newer request the recheck serves the last one accepted. */
  ghost predicate ServesNewest(s: State, r: Recheck) {
    if s.recheckReq.Some? then r.req < s.recheckReq.value == s.requests - 1 else r.req == s.requests - 1
  }

  lemma StepKeepsNewest(s: State, e: Event, r: Recheck)
    requires LoopInv(s) && RecheckInv(s) && Enabled(s, e)
    requires r in Apply(s, e).live && (r in s.live ==> ServesNewest(s, r))
    ensures ServesNewest(Apply(s, e), r)
  {
    assert s.place == Exited ==> r !in s.live;
  }

  lemma {:induction false} NewestServed(es: seq<Event>, r: Recheck)
    requires Run(es).Some? && r in Run(es).value.live
    ensures ServesNewest(Run(es).value, r)
  {
    hide Apply, Enabled, ServesNewest, LoopInv, RecheckInv, CallerInv;
    assert es != [];
    var front := es[..|es| - 1];
    AlwaysInv(front);
    if r in Run(front).value.live {
      NewestServed(front, r);
    }
    StepKeepsNewest(Run(front).value, es[|es| - 1], r);
  }

  /** The loop never waits for a recheck that is not there: its done channel is closed or its goroutine is live. */
  lemma NeverStuck(es: seq<Event>)
    requires Run(es).Some? && Run(es).value.curDone.Some?
    ensures var s := Run(es).value;
            || s.curDone.value in s.closed
            || exists r :: r in s.live && r.done == s.curDone.value && Enabled(s, RecheckEnds(r))
  {
    AlwaysInv(es);
    var s := Run(es).value;
    if s.curDone.value !in s.closed {
      var r :| r in s.live;
      assert Enabled(s, RecheckEnds(r));
    }
  }
}
