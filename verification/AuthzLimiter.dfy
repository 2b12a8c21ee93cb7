/**
 * The authz limiter: no disabled message inside MsgExec or MsgGrant, within a nesting budget
 * (ante/cosmos/authz.go).
 */
module AuthzLimiter {
  const MAX_NESTED: int := 7

  /** A message. The inner messages of a MsgExec and the authorization of a MsgGrant may fail to unpack. */
  datatype Msg = Exec(inner: seq<Msg>) | BrokenExec | Grant(url: string) | BrokenGrant | Other(typeUrl: string)

  /** The walk accepts the messages from index i on, at the level the loop has reached. */
  function AcceptsFrom(disabled: seq<string>, msgs: seq<Msg>, i: nat, inAuthz: bool, level: nat): (ok: bool)
    requires i <= |msgs|
    decreases msgs, |msgs| - i
  {
    if i == |msgs| then true
    else
      match msgs[i]
      case BrokenExec => false
      case Exec(inner) =>
        && level + 1 < MAX_NESTED
        && AcceptsFrom(disabled, inner, 0, true, level + 1)
        && AcceptsFrom(disabled, msgs, i + 1, inAuthz, level + 1)
      case BrokenGrant => false
      case Grant(url) => url !in disabled && AcceptsFrom(disabled, msgs, i + 1, inAuthz, level)
      case Other(url) => !(inAuthz && url in disabled) && AcceptsFrom(disabled, msgs, i + 1, inAuthz, level)
  }

  /** checkDisabledMsgs accepts. */
  predicate Accepts(disabled: seq<string>, msgs: seq<Msg>, inAuthz: bool, level: nat) {
    level < MAX_NESTED && AcceptsFrom(disabled, msgs, 0, inAuthz, level)
  }

  // --- What acceptance means ---

  /** Everything unpacks. */
  ghost predicate Unpacks(msgs: seq<Msg>) {
    forall i :: 0 <= i < |msgs| ==>
      match msgs[i]
      case Exec(inner) => Unpacks(inner)
      case BrokenExec => false
      case BrokenGrant => false
      case _ => true
  }

  /**
   * The walk compares the url with the disabled types: it is granted somewhere, or the type of another
   * message inside some MsgExec.
   */
  ghost predicate Compares(msgs: seq<Msg>, inAuthz: bool, url: string) {
    exists i :: 0 <= i < |msgs| && ComparesOne(msgs[i], inAuthz, url)
  }

  ghost predicate ComparesOne(m: Msg, inAuthz: bool, url: string) {
    match m
    case Exec(inner) => Compares(inner, true, url)
    case Grant(granted) => granted == url
    case Other(own) => inAuthz && own == url
    case _ => false
  }

  /** No disabled type is compared. */
  ghost predicate Clear(disabled: seq<string>, msgs: seq<Msg>, inAuthz: bool) {
    forall url | url in disabled :: !Compares(msgs, inAuthz, url)
  }

  ghost predicate ClearOne(disabled: seq<string>, m: Msg, inAuthz: bool) {
    match m
    case Exec(inner) => Clear(disabled, inner, true)
    case Grant(url) => url !in disabled
    case Other(url) => !(inAuthz && url in disabled)
    case _ => true
  }

  /** How many levels a message list uses up: an exec costs one for its own messages and one for its later siblings. */
  function Cost(msgs: seq<Msg>, i: nat): nat
    requires i <= |msgs|
    decreases msgs, |msgs| - i
  {
    if i == |msgs| then 0
    else
      match msgs[i]
      case Exec(inner) =>
        var a, b := Cost(inner, 0), Cost(msgs, i + 1);
        1 + if a > b then a else b
      case _ => Cost(msgs, i + 1)
  }

  /** The number of MsgExec messages, at any depth. */
  function Execs(msgs: seq<Msg>, i: nat): nat
    requires i <= |msgs|
    decreases msgs, |msgs| - i
  {
    if i == |msgs| then 0
    else
      match msgs[i]
      case Exec(inner) => 1 + Execs(inner, 0) + Execs(msgs, i + 1)
      case BrokenExec => 1 + Execs(msgs, i + 1)
      case _ => Execs(msgs, i + 1)
  }

  lemma {:induction false} AcceptsFromIff(disabled: seq<string>, msgs: seq<Msg>, i: nat, inAuthz: bool, level: nat)
    requires i <= |msgs| && level < MAX_NESTED
    ensures AcceptsFrom(disabled, msgs, i, inAuthz, level) <==>
              && Unpacks(msgs[i..])
              && Clear(disabled, msgs[i..], inAuthz)
              && level + Cost(msgs, i) < MAX_NESTED
    decreases msgs, |msgs| - i
  {
    if i < |msgs| {
      hide Unpacks, Clear;
      assert msgs[i..] == [msgs[i]] + msgs[i + 1..];
      UnpacksSplits(msgs[i], msgs[i + 1..]);
      ClearSplits(disabled, msgs[i], msgs[i + 1..], inAuthz);
      match msgs[i]
      case Exec(inner) =>
        assert inner[0..] == inner;
        if level + 1 < MAX_NESTED {
          AcceptsFromIff(disabled, inner, 0, true, level + 1);
          AcceptsFromIff(disabled, msgs, i + 1, inAuthz, level + 1);
        }
      case _ => AcceptsFromIff(disabled, msgs, i + 1, inAuthz, level);
    }
  }

  ghost predicate UnpacksOne(m: Msg) {
    match m
    case Exec(inner) => Unpacks(inner)
    case BrokenExec => false
    case BrokenGrant => false
    case _ => true
  }

  lemma UnpacksSplits(m: Msg, rest: seq<Msg>)
    ensures Unpacks([m] + rest) <==> UnpacksOne(m) && Unpacks(rest)
  {
    var all := [m] + rest;
    assert all[0] == m && forall i :: 0 <= i < |rest| ==> all[i + 1] == rest[i];
    assert forall i :: 0 < i < |all| ==> all[i] == rest[i - 1];
  }

  lemma ComparesSplits(m: Msg, rest: seq<Msg>, inAuthz: bool, url: string)
    ensures Compares([m] + rest, inAuthz, url) <==> ComparesOne(m, inAuthz, url) || Compares(rest, inAuthz, url)
  {
    hide ComparesOne;
    var all := [m] + rest;
    assert all[0] == m && forall i :: 0 <= i < |rest| ==> all[i + 1] == rest[i];
    assert forall i :: 0 < i < |all| ==> all[i] == rest[i - 1];
  }

  lemma ClearSplits(disabled: seq<string>, m: Msg, rest: seq<Msg>, inAuthz: bool)
    ensures Clear(disabled, [m] + rest, inAuthz) <==> ClearOne(disabled, m, inAuthz) && Clear(disabled, rest, inAuthz)
  {
    hide Compares;
    forall url
      ensures Compares([m] + rest, inAuthz, url) <==> ComparesOne(m, inAuthz, url) || Compares(rest, inAuthz, url)
    {
      ComparesSplits(m, rest, inAuthz, url);
    }
  }

  /**
   * A list is accepted exactly when everything unpacks, no disabled type is compared, at any depth,
   * and its nesting cost fits the levels left.
   */
  lemma AcceptsIff(disabled: seq<string>, msgs: seq<Msg>, inAuthz: bool, level: nat)
    ensures Accepts(disabled, msgs, inAuthz, level) <==>
              && Unpacks(msgs)
              && Clear(disabled, msgs, inAuthz)
              && level + Cost(msgs, 0) < MAX_NESTED
  {
    assert msgs[0..] == msgs;
    if level < MAX_NESTED { AcceptsFromIff(disabled, msgs, 0, inAuthz, level); }
  }

  // --- What acceptance keeps out ---

  const MSG_EXEC := "/cosmos.authz.v1beta1.MsgExec"
  const MSG_GRANT := "/cosmos.authz.v1beta1.MsgGrant"

  /** sdk.MsgTypeURL. */
  function TypeOf(m: Msg): string {
    match m
    case Exec(_) => MSG_EXEC
    case BrokenExec => MSG_EXEC
    case Grant(_) => MSG_GRANT
    case BrokenGrant => MSG_GRANT
    case Other(url) => url
  }

  /** The url is granted by a MsgGrant at some depth. */
  ghost predicate Grants(msgs: seq<Msg>, url: string) {
    exists i :: 0 <= i < |msgs| &&
      match msgs[i]
      case Exec(inner) => Grants(inner, url)
      case Grant(granted) => granted == url
      case _ => false
  }

  /** The url is the type of a message, of whatever kind, inside some MsgExec. */
  ghost predicate Wraps(msgs: seq<Msg>, inAuthz: bool, url: string) {
    exists i :: 0 <= i < |msgs| &&
      ((inAuthz && TypeOf(msgs[i]) == url) || (msgs[i].Exec? && Wraps(msgs[i].inner, true, url)))
  }

  lemma {:induction false} GrantsAreCompared(msgs: seq<Msg>, inAuthz: bool, url: string)
    ensures Grants(msgs, url) ==> Compares(msgs, inAuthz, url)
  {
    forall i | 0 <= i < |msgs| && msgs[i].Exec?
      ensures Grants(msgs[i].inner, url) ==> Compares(msgs[i].inner, true, url)
    {
      GrantsAreCompared(msgs[i].inner, true, url);
    }
  }

  lemma {:induction false} WrappedAreCompared(msgs: seq<Msg>, inAuthz: bool, url: string)
    requires url != MSG_EXEC && url != MSG_GRANT
    ensures Wraps(msgs, inAuthz, url) ==> Compares(msgs, inAuthz, url)
  {
    forall i | 0 <= i < |msgs| && msgs[i].Exec?
      ensures Wraps(msgs[i].inner, true, url) ==> Compares(msgs[i].inner, true, url)
    {
      WrappedAreCompared(msgs[i].inner, true, url);
    }
  }

  /** An accepted list grants no disabled type, and wraps none but MsgExec and MsgGrant themselves. */
  lemma AcceptedKeepsOut(disabled: seq<string>, msgs: seq<Msg>, inAuthz: bool, level: nat, url: string)
    requires Accepts(disabled, msgs, inAuthz, level) && url in disabled
    ensures !Grants(msgs, url)
    ensures Wraps(msgs, inAuthz, url) ==> url == MSG_EXEC || url == MSG_GRANT
  {
    AcceptsIff(disabled, msgs, inAuthz, level);
    GrantsAreCompared(msgs, inAuthz, url);
    if url != MSG_EXEC && url != MSG_GRANT { WrappedAreCompared(msgs, inAuthz, url); }
  }

  /** A MsgExec inside a MsgExec is accepted, whatever is disabled. */
  lemma WrappedExecPasses(disabled: seq<string>, inAuthz: bool, level: nat)
    requires level <= 4
    ensures Accepts(disabled, [Exec([Exec([])])], inAuthz, level) && Wraps([Exec([Exec([])])], inAuthz, MSG_EXEC)
  {
    var inner := [Exec([])];
    assert AcceptsFrom(disabled, [], 0, true, level + 2);
    assert inner[0] == Exec([]) && AcceptsFrom(disabled, inner, 1, true, level + 2);
    assert AcceptsFrom(disabled, inner, 0, true, level + 1);
    assert [Exec(inner)][0] == Exec(inner) && TypeOf(inner[0]) == MSG_EXEC;
    assert Wraps(inner, true, MSG_EXEC);
  }

  /** So is a MsgGrant of a type that is not disabled. */
  lemma WrappedGrantPasses(disabled: seq<string>, url: string, inAuthz: bool, level: nat)
    requires level <= 4 && url !in disabled
    ensures Accepts(disabled, [Exec([Grant(url)])], inAuthz, level) && Wraps([Exec([Grant(url)])], inAuthz, MSG_GRANT)
  {
    var inner := [Grant(url)];
    assert inner[0] == Grant(url) && AcceptsFrom(disabled, inner, 1, true, level + 1);
    assert AcceptsFrom(disabled, inner, 0, true, level + 1);
    assert [Exec(inner)][0] == Exec(inner) && TypeOf(inner[0]) == MSG_GRANT;
    assert Wraps(inner, true, MSG_GRANT);
  }

  /** A url that is not listed, for it is longer than all that are. */
  function Unlisted(disabled: seq<string>): (url: string)
    ensures url != "" && forall u :: u in disabled ==> |u| < |url|
  {
    if disabled == [] then "/" else Unlisted(disabled[1..]) + disabled[0]
  }

  ghost predicate WrapsNoDisabled(disabled: seq<string>, msgs: seq<Msg>, inAuthz: bool) {
    forall url | url in disabled :: !Wraps(msgs, inAuthz, url)
  }

  /**
   * Acceptance keeps every disabled type out of MsgExec exactly when neither MsgExec nor MsgGrant is
   * itself to be disabled.
   */
  lemma KeepsAllOutIff(disabled: seq<string>, inAuthz: bool, level: nat)
    requires level <= 4
    ensures (forall msgs | Accepts(disabled, msgs, inAuthz, level) :: WrapsNoDisabled(disabled, msgs, inAuthz)) <==>
              MSG_EXEC !in disabled && MSG_GRANT !in disabled
  {
    hide Accepts, Wraps;
    if MSG_EXEC !in disabled && MSG_GRANT !in disabled {
      forall msgs | Accepts(disabled, msgs, inAuthz, level) ensures WrapsNoDisabled(disabled, msgs, inAuthz) {
        forall url | url in disabled ensures !Wraps(msgs, inAuthz, url) {
          AcceptedKeepsOut(disabled, msgs, inAuthz, level, url);
        }
      }
    } else {
      var url := Unlisted(disabled);
      WrappedExecPasses(disabled, inAuthz, level);
      WrappedGrantPasses(disabled, url, inAuthz, level);
      assert MSG_EXEC in disabled ==> !WrapsNoDisabled(disabled, [Exec([Exec([])])], inAuthz);
      assert MSG_GRANT in disabled ==> !WrapsNoDisabled(disabled, [Exec([Grant(url)])], inAuthz);
    }
  }

  // --- The budget ---

  function Pow2(n: nat): (r: nat)
    ensures r > 0
  {
    if n == 0 then 1 else 2 * Pow2(n - 1)
  }

  lemma {:induction false} CostBoundsExecs(msgs: seq<Msg>, i: nat, budget: nat)
    requires i <= |msgs| && Unpacks(msgs) && Cost(msgs, i) <= budget
    ensures Execs(msgs, i) <= Pow2(budget) - 1
    decreases msgs, |msgs| - i
  {
    if i < |msgs| {
      if msgs[i].Exec? {
        CostBoundsExecs(msgs[i].inner, 0, budget - 1);
        CostBoundsExecs(msgs, i + 1, budget - 1);
      } else {
        CostBoundsExecs(msgs, i + 1, budget);
      }
    }
  }

  /**
   * An accepted list has at most 2^(6 - level) - 1 MsgExec messages: the counter is shared by siblings
   * as well as depth.
   */
  lemma AcceptedExecs(disabled: seq<string>, msgs: seq<Msg>, inAuthz: bool, level: nat)
    requires Accepts(disabled, msgs, inAuthz, level)
    ensures level <= 6 && Execs(msgs, 0) <= Pow2(6 - level) - 1
  {
    AcceptsIff(disabled, msgs, inAuthz, level);
    CostBoundsExecs(msgs, 0, 6 - level);
  }

  /** The fullest list that fits n levels. */
  function Fullest(n: nat): (msgs: seq<Msg>) {
    if n == 0 then [] else [Exec(Fullest(n - 1))] + Fullest(n - 1)
  }

  lemma {:induction false} CostOfTail(m: Msg, rest: seq<Msg>, i: nat)
    requires i <= |rest|
    ensures Cost([m] + rest, i + 1) == Cost(rest, i) && Execs([m] + rest, i + 1) == Execs(rest, i)
    decreases |rest| - i
  {
    if i < |rest| {
      assert ([m] + rest)[i + 1] == rest[i];
      CostOfTail(m, rest, i + 1);
    }
  }

  lemma {:induction false} FullestFits(n: nat)
    ensures Unpacks(Fullest(n)) && Cost(Fullest(n), 0) <= n && Execs(Fullest(n), 0) == Pow2(n) - 1
    ensures forall url, inAuthz :: !Compares(Fullest(n), inAuthz, url)
  {
    if n > 0 {
      FullestFits(n - 1);
      var rest := Fullest(n - 1);
      var m := Exec(rest);
      CostOfTail(m, rest, 0);
      UnpacksSplits(m, rest);
      assert ([m] + rest)[0] == m;
      forall url, inAuthz ensures !Compares(Fullest(n), inAuthz, url) { ComparesSplits(m, rest, inAuthz, url); }
    }
  }

  /** The bound is met: from level 1 a tx with 31 MsgExec messages is accepted, whatever is disabled. */
  lemma BoundIsTight(disabled: seq<string>, level: nat)
    requires level <= 6
    ensures Accepts(disabled, Fullest(6 - level), false, level) && Execs(Fullest(6 - level), 0) == Pow2(6 - level) - 1
    ensures level == 1 ==> Execs(Fullest(6 - level), 0) == 31
  {
    FullestFits(6 - level);
    AcceptsIff(disabled, Fullest(6 - level), false, level);
    assert Pow2(5) == 32;
  }

  // --- The code ---

  /** isDisabledMsg. */
  method IsDisabledMsg(disabled: seq<string>, url: string) returns (found: bool)
    ensures found <==> url in disabled
  {
    for i := 0 to |disabled|
      invariant url !in disabled[..i]
    {
      if disabled[i] == url {
        return true;
      }
    }
    return false;
  }

  /** checkDisabledMsgs, with its loop that raises the level at every MsgExec. */
  method CheckDisabledMsgs(disabled: seq<string>, msgs: seq<Msg>, isAuthzInnerMsg: bool, nestedLvl: nat)
    returns (ok: bool)
    ensures ok <==> Accepts(disabled, msgs, isAuthzInnerMsg, nestedLvl)
    decreases msgs
  {
    if nestedLvl >= MAX_NESTED {
      return false;
    }
    var level: nat := nestedLvl;
    for i := 0 to |msgs|
      invariant level < MAX_NESTED
      invariant AcceptsFrom(disabled, msgs, i, isAuthzInnerMsg, level) <==>
                AcceptsFrom(disabled, msgs, 0, isAuthzInnerMsg, nestedLvl)
    {
      match msgs[i] {
        case BrokenExec => return false;
        case Exec(inner) =>
          level := level + 1;
          var accepted := CheckDisabledMsgs(disabled, inner, true, level);
          if !accepted {
            return false;
          }
        case BrokenGrant => return false;
        case Grant(url) =>
          var bad := IsDisabledMsg(disabled, url);
          if bad {
            return false;
          }
        case Other(url) =>
          var bad := IsDisabledMsg(disabled, url);
          if isAuthzInnerMsg && bad {
            return false;
          }
      }
    }
    return true;
  }
}
