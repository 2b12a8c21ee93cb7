/**
 * The faucet's claim journal (ops/testnet-faucet/recovery.js) over every run with failed writes,
 * crashes and reopenings. A write of the journal ends with the old or the new rows durable,
 * whether it reports success, throws or is cut off. Operations are serialised by `busy`.
 */
module FaucetJournal {
  import opened Common

  datatype Status = Reserved | Prepared | Submitted | Unknown | Confirmed | FailedDefinite

  predicate Pending(s: Status) { s in {Reserved, Prepared, Submitted, Unknown} }

  datatype Row = Row(
    id: string, address: string, ip: string, at: nat, chainId: string, sender: string, denom: string, amount: string,
    state: Status, txhash: Option<string>)

  datatype Receipt = Receipt(
    txhash: string, chainId: string, sender: string, recipient: string, denom: string, amount: string,
    height: int, code: int)

  datatype Policy = Policy(
    chainId: string, sender: string, amount: string, addressWindow: nat, ipWindow: nat, ipLimit: nat)

  /** The receipt agrees with the row in every respect. */
  predicate Matches(r: Receipt, row: Row) {
    && row.txhash == Some(r.txhash) && r.chainId == row.chainId && r.sender == row.sender && r.recipient == row.address
    && r.denom == row.denom && r.amount == row.amount && r.height > 0 && r.code >= 0
  }

  // --- The journal as a machine ---

  /** What the running operation does next. Saving(k, i): write the rows after stage k on row i. */
  datatype Stage = Idle | Saving(next: After, row: nat) | CallingSubmit(row: nat) | AwaitingSubmit(row: nat)

  /** Where an operation continues after a successful write. */
  datatype After = MarkUnknown | Submit | Finish

  datatype Memory = Memory(rows: seq<Row>, poisoned: bool, stage: Stage)

  datatype SubmitCall = SubmitCall(id: string, durable: seq<Row>)

  /** `disk` are the durable rows, of which the first `legacy` were imported; the rest is history. */
  datatype State = State(
    memory: Option<Memory>, disk: seq<Row>, legacy: nat, submits: seq<SubmitCall>, receipts: map<string, Receipt>)

  datatype Write = Ok | ThrowOld | ThrowNew | CrashOld | CrashNew

  datatype Event =
    | Open
    | Close
    | Crash
    | Claim(address: string, ip: string, now: nat, id: string)
    | Save(w: Write)
    | CallSubmit
    | SubmitReturns(hash: Option<string>)
    | Reconcile(id: string, receipt: Option<Receipt>)

  /** The part of validate that a claim could violate: ids are unique. */
  predicate UniqueIds(rows: seq<Row>) {
    forall i, j :: 0 <= i < j < |rows| ==> rows[i].id != rows[j].id
  }

  function Find(rows: seq<Row>, id: string): (r: Option<nat>)
    ensures r.Some? ==> r.value < |rows| && rows[r.value].id == id
    ensures r.None? ==> forall i :: 0 <= i < |rows| ==> rows[i].id != id
  {
    if rows == [] then None
    else if rows[|rows| - 1].id == id && Find(rows[..|rows| - 1], id).None? then Some(|rows| - 1)
    else Find(rows[..|rows| - 1], id)
  }

  /** address_limit: a row of the address is pending or within the window. */
  predicate AddressBlocked(p: Policy, rows: seq<Row>, address: string, now: nat) {
    exists i :: 0 <= i < |rows| && rows[i].address == address &&
      (Pending(rows[i].state) || now - rows[i].at < p.addressWindow)
  }

  function BlockingIp(p: Policy, rows: seq<Row>, ip: string, now: nat): set<nat> {
    set i: nat | i < |rows| && rows[i].ip == ip && (Pending(rows[i].state) || now - rows[i].at < p.ipWindow)
  }

  predicate Admits(p: Policy, rows: seq<Row>, address: string, ip: string, now: nat) {
    !AddressBlocked(p, rows, address, now) && |BlockingIp(p, rows, ip, now)| < p.ipLimit
  }

  predicate Available(s: State) { s.memory.Some? && s.memory.value.stage == Idle && !s.memory.value.poisoned }

  predicate Enabled(s: State, e: Event) {
    match e
    case Open => s.memory.None?
    case Close => s.memory.Some? && s.memory.value.stage == Idle
    case Crash => s.memory.Some?
    case Claim(_, _, _, _) => Available(s)
    // validate throws before anything is written
    case Save(w) =>
      && s.memory.Some? && s.memory.value.stage.Saving? && s.memory.value.stage.row < |s.memory.value.rows|
      && (w in {Ok, ThrowNew, CrashNew} ==> UniqueIds(s.memory.value.rows))
    case CallSubmit =>
      s.memory.Some? && s.memory.value.stage.CallingSubmit? && s.memory.value.stage.row < |s.memory.value.rows|
    case SubmitReturns(_) =>
      s.memory.Some? && s.memory.value.stage.AwaitingSubmit? && s.memory.value.stage.row < |s.memory.value.rows|
    case Reconcile(_, _) => Available(s)
  }

  function NewRow(p: Policy, address: string, ip: string, now: nat, id: string): Row {
    Row(id, address, ip, now, p.chainId, p.sender, "axtc", p.amount, Reserved, None)
  }

  /** Continue after a successful write. */
  function Continue(m: Memory): Memory
    requires m.stage.Saving? && m.stage.row < |m.rows|
  {
    match m.stage.next
    case MarkUnknown =>
      m.(rows := m.rows[m.stage.row := m.rows[m.stage.row].(state := Unknown)], stage := Saving(Submit, m.stage.row))
    case Submit => m.(stage := CallingSubmit(m.stage.row))
    case Finish => m.(stage := Idle)
  }

  function Apply(p: Policy, s: State, e: Event): (r: State)
    requires Enabled(s, e)
  {
    match e
    case Open => s.(memory := Some(Memory(s.disk, false, Idle)))
    case Close => s.(memory := None)
    case Crash => s.(memory := None)
    case Claim(address, ip, now, id) =>
      var m := s.memory.value;
      if !Admits(p, m.rows, address, ip, now) then s
      else
        var rows := m.rows + [NewRow(p, address, ip, now, id)];
        s.(memory := Some(m.(rows := rows, stage := Saving(MarkUnknown, |m.rows|))))
    case Save(w) =>
      var m := s.memory.value;
      var s1 := if w in {Ok, ThrowNew, CrashNew} then s.(disk := m.rows) else s;
      (match w
       case Ok => s1.(memory := Some(Continue(m)))
       case ThrowOld => s1.(memory := Some(m.(poisoned := true, stage := Idle)))
       case ThrowNew => s1.(memory := Some(m.(poisoned := true, stage := Idle)))
       case CrashOld => s1.(memory := None)
       case CrashNew => s1.(memory := None))
    case CallSubmit =>
      var m := s.memory.value;
      s.(submits := s.submits + [SubmitCall(m.rows[m.stage.row].id, s.disk)],
         memory := Some(m.(stage := AwaitingSubmit(m.stage.row))))
    case SubmitReturns(hash) =>
      var m := s.memory.value;
      var i := m.stage.row;
      var rows := if hash.Some? then m.rows[i := m.rows[i].(txhash := hash, state := Submitted)] else m.rows;
      s.(memory := Some(m.(rows := rows, stage := Saving(Finish, i))))
    case Reconcile(id, receipt) =>
      var m := s.memory.value;
      var found := Find(m.rows, id);
      if found.None? || !Pending(m.rows[found.value].state) || m.rows[found.value].txhash.None? then s
      else
        var row := m.rows[found.value];
        var matched := receipt.Some? && Matches(receipt.value, row);
        var verdict := if !matched then Unknown else if receipt.value.code == 0 then Confirmed else FailedDefinite;
        var rows := m.rows[found.value := row.(state := verdict)];
        s.(memory := Some(m.(rows := rows, stage := Saving(Finish, found.value))),
           receipts := if matched then s.receipts[id := receipt.value] else s.receipts)
  }

  /** A journal as first opened: imported rows are all unknown, nothing was submitted yet. */
  ghost predicate Initial(s: State) {
    && s.memory.None? && s.submits == [] && s.receipts == map[] && s.legacy == |s.disk| && UniqueIds(s.disk)
    && forall i :: 0 <= i < |s.disk| ==> s.disk[i].state == Unknown
  }

  function Run(p: Policy, s: State, es: seq<Event>): (r: Option<State>) {
    if es == [] then Some(s)
    else
      var before := Run(p, s, es[..|es| - 1]);
      if before.Some? && Enabled(before.value, es[|es| - 1]) then Some(Apply(p, before.value, es[|es| - 1])) else None
  }

  // --- What every run keeps ---

  predicate SameClaim(a: Row, b: Row) {
    && a.id == b.id && a.address == b.address && a.ip == b.ip && a.at == b.at
    && a.chainId == b.chainId && a.sender == b.sender && a.denom == b.denom && a.amount == b.amount
  }

  predicate WasSubmitted(s: State, id: string) {
    exists k :: 0 <= k < |s.submits| && s.submits[k].id == id
  }

  /** Memory is the disk plus what the running operation has not yet made durable. */
  ghost predicate MemoryInv(s: State, m: Memory) {
    match m.stage
    case Idle => m.rows == s.disk
    case Saving(MarkUnknown, i) =>
      && i == |s.disk| == |m.rows| - 1 && m.rows == s.disk + [m.rows[i]]
      && m.rows[i].state == Reserved && m.rows[i].txhash == None
    case Saving(Submit, i) =>
      i < |s.disk| && s.disk[i].state == Reserved && m.rows == s.disk[i := s.disk[i].(state := Unknown)]
    case Saving(Finish, i) =>
      && i < |s.disk| == |m.rows| && m.rows == s.disk[i := m.rows[i]] && SameClaim(m.rows[i], s.disk[i])
      && Pending(s.disk[i].state) && m.rows[i].state != Reserved
      && (s.disk[i].state == Reserved ==> !WasSubmitted(s, s.disk[i].id))
      && (!Pending(m.rows[i].state) ==>
            && m.rows[i].id in s.receipts && Matches(s.receipts[m.rows[i].id], m.rows[i])
            && (m.rows[i].state == Confirmed <==> s.receipts[m.rows[i].id].code == 0))
    case CallingSubmit(i) =>
      i < |s.disk| && m.rows == s.disk && s.disk[i].state == Unknown && !WasSubmitted(s, s.disk[i].id)
    case AwaitingSubmit(i) => i < |s.disk| && m.rows == s.disk && s.disk[i].state == Unknown
  }

  /** The submission was made with its row durably unknown. */
  ghost predicate DurablyUnknown(c: SubmitCall) {
    exists i :: 0 <= i < |c.durable| && c.durable[i].id == c.id && c.durable[i].state == Unknown
  }

  /**
   * Submissions: each was made with its row durably unknown, none twice, and the row is still there,
   * never reserved again.
   */
  ghost predicate SubmitInv(s: State) {
    && (forall k | 0 <= k < |s.submits| :: DurablyUnknown(s.submits[k]) && Find(s.disk, s.submits[k].id).Some?)
    && (forall k, l | 0 <= k < l < |s.submits| :: s.submits[k].id != s.submits[l].id)
    && (forall i | 0 <= i < |s.disk| && s.disk[i].state == Reserved :: !WasSubmitted(s, s.disk[i].id))
  }

  /** Final rows carry a fully matching receipt. */
  ghost predicate ReceiptInv(s: State) {
    forall i | 0 <= i < |s.disk| && !Pending(s.disk[i].state) ::
      && s.disk[i].id in s.receipts && Matches(s.receipts[s.disk[i].id], s.disk[i])
      && (s.disk[i].state == Confirmed <==> s.receipts[s.disk[i].id].code == 0)
  }

  ghost predicate Inv(s: State) {
    && UniqueIds(s.disk) && SubmitInv(s) && ReceiptInv(s)
    && (s.memory.Some? && !s.memory.value.poisoned ==> MemoryInv(s, s.memory.value))
    && (s.memory.Some? && s.memory.value.poisoned ==> s.memory.value.stage == Idle)
  }

  /** What one event may do to the durable rows: append, or change the state and hash of a pending row. */
  ghost predicate DiskMoves(before: seq<Row>, after: seq<Row>) {
    && |before| <= |after|
    && forall i | 0 <= i < |before| ::
      SameClaim(before[i], after[i]) && (!Pending(before[i].state) ==> after[i] == before[i])
  }

  lemma FoundAgain(before: seq<Row>, after: seq<Row>, id: string)
    requires DiskMoves(before, after) && Find(before, id).Some?
    ensures Find(after, id).Some?
  {
    var i := Find(before, id).value;
    assert after[i].id == id;
  }

  lemma FindUnique(rows: seq<Row>, i: nat)
    requires UniqueIds(rows) && i < |rows|
    ensures Find(rows, rows[i].id) == Some(i)
  {
    var j := Find(rows, rows[i].id).value;
    assert rows[j].id == rows[i].id;
  }

  /** Writing what memory holds is an allowed move of the disk that keeps submissions and receipts right. */
  lemma WriteKeepsInv(s: State, m: Memory)
    requires Inv(s) && s.memory == Some(m) && !m.poisoned && m.stage.Saving? && UniqueIds(m.rows)
    ensures DiskMoves(s.disk, m.rows)
    ensures SubmitInv(s.(disk := m.rows)) && ReceiptInv(s.(disk := m.rows))
  {
    WriteMovesDisk(s, m);
    WriteKeepsReceipts(s, m);
    WriteKeepsSubmits(s, m);
  }

  lemma WriteMovesDisk(s: State, m: Memory)
    requires Inv(s) && s.memory == Some(m) && !m.poisoned && m.stage.Saving?
    ensures DiskMoves(s.disk, m.rows)
  {
    hide SubmitInv, ReceiptInv, UniqueIds, Matches;
  }

  lemma WriteKeepsReceipts(s: State, m: Memory)
    requires Inv(s) && s.memory == Some(m) && !m.poisoned && m.stage.Saving?
    ensures ReceiptInv(s.(disk := m.rows))
  {
    hide SubmitInv, UniqueIds, Matches, WasSubmitted;
  }

  lemma WriteKeepsSubmits(s: State, m: Memory)
    requires Inv(s) && s.memory == Some(m) && !m.poisoned && m.stage.Saving? && UniqueIds(m.rows) &&
             DiskMoves(s.disk, m.rows)
    ensures SubmitInv(s.(disk := m.rows))
  {
    hide ReceiptInv, Matches, Find;
    var s1 := s.(disk := m.rows);
    forall k | 0 <= k < |s.submits|
      ensures Find(m.rows, s.submits[k].id).Some?
    {
      FoundAgain(s.disk, m.rows, s.submits[k].id);
    }
    if m.stage.next == MarkUnknown {
      var i := m.stage.row;
      forall k | 0 <= k < |s.submits| ensures s.submits[k].id != m.rows[i].id {
        var j := Find(s.disk, s.submits[k].id).value;
        assert m.rows[j] == s.disk[j];
      }
      forall j | 0 <= j < |m.rows| && m.rows[j].state == Reserved ensures !WasSubmitted(s1, m.rows[j].id) {
        if j < |s.disk| { assert m.rows[j] == s.disk[j]; assert !WasSubmitted(s, s.disk[j].id); }
      }
    } else {
      forall j | 0 <= j < |m.rows| && m.rows[j].state == Reserved ensures !WasSubmitted(s1, m.rows[j].id) {
        assert !WasSubmitted(s, s.disk[j].id);
      }
    }
  }

  /** After a successful write the operation goes on from a memory that agrees with the disk. */
  lemma OkKeepsInv(p: Policy, s: State)
    requires Inv(s) && Enabled(s, Save(Ok))
    ensures Inv(Apply(p, s, Save(Ok)))
  {
    var m := s.memory.value;
    WriteKeepsInv(s, m);
    var r := Apply(p, s, Save(Ok));
    var i := m.stage.row;
    assert forall id :: WasSubmitted(r, id) == WasSubmitted(s, id);
    if m.stage.next == Submit {
      assert s.disk[i].state == Reserved;
      assert !WasSubmitted(s, s.disk[i].id);
    }
  }

  lemma SaveKeepsInv(p: Policy, s: State, e: Event)
    requires Inv(s) && e.Save? && Enabled(s, e)
    ensures Inv(Apply(p, s, e)) && DiskMoves(s.disk, Apply(p, s, e).disk)
  {
    hide SubmitInv, ReceiptInv, MemoryInv, UniqueIds;
    var m := s.memory.value;
    if UniqueIds(m.rows) { WriteKeepsInv(s, m); }
    SameRows(s.disk);
    if e.w == Ok { OkKeepsInv(p, s); }
    MemoryIsSeparate(s, Apply(p, s, e).memory);
    MemoryIsSeparate(s.(disk := m.rows), Apply(p, s, e).memory);
  }

  lemma MemoryIsSeparate(s: State, memory: Option<Memory>)
    ensures SubmitInv(s.(memory := memory)) == SubmitInv(s) && ReceiptInv(s.(memory := memory)) == ReceiptInv(s)
  {
    var r := s.(memory := memory);
    assert forall id :: WasSubmitted(r, id) == WasSubmitted(s, id);
  }

  lemma SameRows(rows: seq<Row>)
    ensures DiskMoves(rows, rows)
  {
  }

  lemma CallSubmitKeepsInv(p: Policy, s: State, e: Event)
    requires Inv(s) && e.CallSubmit? && Enabled(s, e)
    ensures Inv(Apply(p, s, e))
  {
    hide SubmitInv, ReceiptInv, WasSubmitted, UniqueIds;
    var r := Apply(p, s, e);
    SubmitOnce(s, s.memory.value.stage.row, r.memory);
    SameReceipts(s, r);
  }

  lemma SameReceipts(s: State, r: State)
    requires r.disk == s.disk && r.receipts == s.receipts
    ensures ReceiptInv(r) == ReceiptInv(s)
  {
    hide Matches, Pending;
  }

  /** One submission more, of a durably unknown row that was not submitted before. */
  lemma SubmitOnce(s: State, i: nat, memory: Option<Memory>)
    requires UniqueIds(s.disk) && SubmitInv(s) && i < |s.disk| && s.disk[i].state == Unknown &&
             !WasSubmitted(s, s.disk[i].id)
    ensures SubmitInv(s.(submits := s.submits + [SubmitCall(s.disk[i].id, s.disk)], memory := memory))
  {
    var r := s.(submits := s.submits + [SubmitCall(s.disk[i].id, s.disk)], memory := memory);
    FindUnique(s.disk, i);
    assert DurablyUnknown(r.submits[|s.submits|]);
    forall k | 0 <= k < |s.submits| ensures r.submits[k] == s.submits[k] && s.submits[k].id != s.disk[i].id {
      assert !WasSubmitted(s, s.disk[i].id);
    }
    forall j | 0 <= j < |s.disk| && s.disk[j].state == Reserved ensures !WasSubmitted(r, s.disk[j].id) {
      assert !WasSubmitted(s, s.disk[j].id) && s.disk[j].id != s.disk[i].id;
    }
  }

  lemma ReconcileKeepsInv(p: Policy, s: State, e: Event)
    requires Inv(s) && e.Reconcile? && Enabled(s, e)
    ensures Inv(Apply(p, s, e))
  {
    var r := Apply(p, s, e);
    var m := s.memory.value;
    var found := Find(m.rows, e.id);
    if found.Some? && Pending(m.rows[found.value].state) {
      var i := found.value;
      forall j | 0 <= j < |s.disk| && !Pending(s.disk[j].state) ensures s.disk[j].id != e.id {
        FindUnique(s.disk, j);
      }
      assert s.disk[i].state == Reserved ==> !WasSubmitted(s, s.disk[i].id);
    }
    assert forall id :: WasSubmitted(r, id) == WasSubmitted(s, id);
  }

  lemma OtherKeepsInv(p: Policy, s: State, e: Event)
    requires Inv(s) && Enabled(s, e) && (e.Open? || e.Close? || e.Crash? || e.Claim? || e.SubmitReturns?)
    ensures Inv(Apply(p, s, e))
  {
    var r := Apply(p, s, e);
    assert forall id :: WasSubmitted(r, id) == WasSubmitted(s, id);
  }

  /** Every event keeps the invariant and moves the durable rows only as allowed. */
  lemma StepKeepsInv(p: Policy, s: State, e: Event)
    requires Inv(s) && Enabled(s, e)
    ensures Inv(Apply(p, s, e)) && DiskMoves(s.disk, Apply(p, s, e).disk)
  {
    match e
    case Save(_) => SaveKeepsInv(p, s, e);
    case CallSubmit => CallSubmitKeepsInv(p, s, e);
    case Reconcile(_, _) => ReconcileKeepsInv(p, s, e);
    case _ => OtherKeepsInv(p, s, e);
  }

  // --- Quotas ---

  /** Earlier rows of the same IP within the window before row j. */
  function Recent(p: Policy, rows: seq<Row>, j: nat): set<nat>
    requires j < |rows|
  {
    set i: nat | i < j && rows[i].ip == rows[j].ip && rows[j].at - rows[i].at < p.ipWindow
  }

  /** Every claimed row keeps its distance from earlier rows of its address, and its IP's quota. */
  ghost predicate QuotasKept(p: Policy, rows: seq<Row>, legacy: nat) {
    && (forall i, j | 0 <= i < j < |rows| && legacy <= j && rows[i].address == rows[j].address ::
      rows[j].at - rows[i].at >= p.addressWindow)
    && (forall j: nat | legacy <= j < |rows| :: |Recent(p, rows, j)| < p.ipLimit)
  }

  ghost predicate QuotaInv(p: Policy, s: State) {
    && s.legacy <= |s.disk| && QuotasKept(p, s.disk, s.legacy)
    && (s.memory.Some? && !s.memory.value.poisoned ==>
      s.legacy <= |s.memory.value.rows| && QuotasKept(p, s.memory.value.rows, s.legacy))
  }

  /** Quotas depend only on who claimed when. */
  lemma QuotasFollowClaims(p: Policy, a: seq<Row>, b: seq<Row>, legacy: nat)
    requires |a| == |b| && (forall i | 0 <= i < |a| :: SameClaim(a[i], b[i])) && QuotasKept(p, a, legacy)
    ensures QuotasKept(p, b, legacy)
  {
    forall j: nat | legacy <= j < |b| ensures |Recent(p, b, j)| < p.ipLimit {
      assert Recent(p, b, j) == Recent(p, a, j);
    }
  }

  lemma ProperSubsetSmaller(a: set<nat>, b: set<nat>)
    requires a <= b
    ensures |a| <= |b|
  {
    assert b == a + (b - a);
  }

  /** An admitted claim keeps the quotas. */
  lemma AdmittedKeepsQuotas(p: Policy, rows: seq<Row>, legacy: nat, row: Row)
    requires legacy <= |rows| && QuotasKept(p, rows, legacy) && Admits(p, rows, row.address, row.ip, row.at)
    ensures QuotasKept(p, rows + [row], legacy)
    ensures forall i | 0 <= i < |rows| && rows[i].address == row.address ::
            !Pending(rows[i].state) && row.at - rows[i].at >= p.addressWindow
  {
    var r := rows + [row];
    assert forall i :: 0 <= i < |rows| ==> r[i] == rows[i];
    forall j: nat | legacy <= j < |r| ensures |Recent(p, r, j)| < p.ipLimit {
      if j < |rows| {
        assert Recent(p, r, j) == Recent(p, rows, j);
      } else {
        ProperSubsetSmaller(Recent(p, r, j), BlockingIp(p, rows, row.ip, row.at));
      }
    }
  }

  lemma StepKeepsQuotas(p: Policy, s: State, e: Event)
    requires Inv(s) && QuotaInv(p, s) && Enabled(s, e)
    ensures QuotaInv(p, Apply(p, s, e))
  {
    hide MemoryInv, SubmitInv, ReceiptInv, UniqueIds, QuotasKept, Admits, Find;
    var r := Apply(p, s, e);
    if s.memory.Some? && r.memory.Some? && !s.memory.value.poisoned {
      var a, b := s.memory.value.rows, r.memory.value.rows;
      if e.Claim? && Admits(p, a, e.address, e.ip, e.now) {
        AdmittedKeepsQuotas(p, a, s.legacy, NewRow(p, e.address, e.ip, e.now, e.id));
      } else {
        QuotasFollowClaims(p, a, b, s.legacy);
      }
    }
  }

  lemma PendingOrFinal(s: Status)
    ensures Pending(s) <==> s != Confirmed && s != FailedDefinite
  {
  }

  /**
   * A claim is granted exactly when every row of its address is final and out of the address window, and
   * fewer than the limit of its IP's rows are pending or within theirs; it then gets a row of its own.
   */
  lemma ClaimGrantedIff(p: Policy, s: State, address: string, ip: string, now: nat, id: string)
    requires Enabled(s, Claim(address, ip, now, id))
    ensures var rows := s.memory.value.rows;
            var after := Apply(p, s, Claim(address, ip, now, id)).memory.value.rows;
            var granted :=
              && (forall i | 0 <= i < |rows| && rows[i].address == address ::
                    rows[i].state in {Confirmed, FailedDefinite} && rows[i].at + p.addressWindow <= now)
              && |set i: nat | i < |rows| && rows[i].ip == ip
                               && (rows[i].state !in {Confirmed, FailedDefinite} || now < rows[i].at + p.ipWindow)|
                 < p.ipLimit;
            after == if granted
                     then rows + [Row(id, address, ip, now, p.chainId, p.sender, "axtc", p.amount, Reserved, None)]
                     else rows
  {
    var rows := s.memory.value.rows;
    assert forall i | 0 <= i < |rows| :: Pending(rows[i].state) <==> rows[i].state !in {Confirmed, FailedDefinite} by {
      forall i | 0 <= i < |rows| ensures Pending(rows[i].state) <==> rows[i].state !in {Confirmed, FailedDefinite} {
        PendingOrFinal(rows[i].state);
      }
    }
    var counted := set i: nat | i < |rows| && rows[i].ip == ip
                                && (rows[i].state !in {Confirmed, FailedDefinite} || now < rows[i].at + p.ipWindow);
    assert BlockingIp(p, rows, ip, now) == counted;
  }

  lemma OneMoreIsUnique(rows: seq<Row>, row: Row)
    requires UniqueIds(rows) && forall i | 0 <= i < |rows| :: rows[i].id != row.id
    ensures UniqueIds(rows + [row])
  {
  }

  lemma SameIdsStayUnique(rows: seq<Row>, i: nat, row: Row)
    requires UniqueIds(rows) && i < |rows| && row.id == rows[i].id
    ensures UniqueIds(rows[i := row])
  {
  }

  /**
   * A granted claim with a fresh id can run through: its row is made durable as reserved, then as unknown,
   * then submitted, and in the end it is durable as submitted with its hash and the journal is free again.
   */
  lemma ClaimRunsThrough(p: Policy, s: State, address: string, ip: string, now: nat, id: string, hash: string)
    requires Inv(s) && Available(s) && Admits(p, s.disk, address, ip, now)
    requires forall i | 0 <= i < |s.disk| :: s.disk[i].id != id
    ensures var claim := Claim(address, ip, now, id);
            var row := Row(id, address, ip, now, p.chainId, p.sender, "axtc", p.amount, Reserved, None);
            && Enabled(s, claim)
            && var s1 := Apply(p, s, claim);
            && Enabled(s1, Save(Ok))
            && var s2 := Apply(p, s1, Save(Ok));
            && s2.disk == s.disk + [row] && Enabled(s2, Save(Ok))
            && var s3 := Apply(p, s2, Save(Ok));
            && s3.disk == s.disk + [row.(state := Unknown)] && Enabled(s3, CallSubmit)
            && var s4 := Apply(p, s3, CallSubmit);
            && s4.submits == s.submits + [SubmitCall(id, s3.disk)] && Enabled(s4, SubmitReturns(Some(hash)))
            && var s5 := Apply(p, s4, SubmitReturns(Some(hash)));
            && Enabled(s5, Save(Ok))
            && var s6 := Apply(p, s5, Save(Ok));
            && s6.disk == s.disk + [row.(state := Submitted, txhash := Some(hash))] && Available(s6)
  {
    hide Inv, Admits, UniqueIds;
    IdleMemory(s);
    var n := |s.disk|;
    var row := NewRow(p, address, ip, now, id);
    var rows := s.disk + [row];
    OneMoreIsUnique(s.disk, row);
    var unknown := row.(state := Unknown);
    SameIdsStayUnique(rows, n, unknown);
    assert rows[n := unknown] == s.disk + [unknown];
    var submitted := row.(state := Submitted, txhash := Some(hash));
    SameIdsStayUnique(rows, n, submitted);
    assert (s.disk + [unknown])[n := submitted] == rows[n := submitted] == s.disk + [submitted];
  }

  lemma IdleMemory(s: State)
    requires Inv(s) && Available(s)
    ensures s.memory.value.rows == s.disk && UniqueIds(s.disk)
  {
  }

  /**
   * Reconciling settles exactly a pending row with a hash: confirmed or definitely failed by the code of a
   * receipt of its own transfer, unknown without one. An unknown id, a final row or one without a hash stays.
   */
  lemma ReconcileIs(p: Policy, s: State, id: string, receipt: Option<Receipt>, i: nat)
    requires Inv(s) && Enabled(s, Reconcile(id, receipt))
    ensures (forall j | 0 <= j < |s.disk| :: s.disk[j].id != id) ==> Apply(p, s, Reconcile(id, receipt)) == s
    ensures i < |s.disk| && s.disk[i].id == id ==>
              var row := s.disk[i];
              var own := receipt.Some? && row.txhash == Some(receipt.value.txhash)
                         && receipt.value.chainId == row.chainId && receipt.value.sender == row.sender
                         && receipt.value.recipient == row.address && receipt.value.denom == row.denom
                         && receipt.value.amount == row.amount && receipt.value.height >= 1 && receipt.value.code >= 0;
              var settled := if !own then Unknown else if receipt.value.code == 0 then Confirmed else FailedDefinite;
              if row.state in {Confirmed, FailedDefinite} || row.txhash == None
              then Apply(p, s, Reconcile(id, receipt)) == s
              else Apply(p, s, Reconcile(id, receipt)).memory.value.rows == s.disk[i := row.(state := settled)]
  {
    IdleMemory(s);
    if i < |s.disk| && s.disk[i].id == id {
      FindUnique(s.disk, i);
      PendingOrFinal(s.disk[i].state);
    }
  }

  // --- Whole runs ---

  lemma {:induction false} AlwaysInv(p: Policy, s: State, es: seq<Event>)
    requires Initial(s) && Run(p, s, es).Some?
    ensures Inv(Run(p, s, es).value) && QuotaInv(p, Run(p, s, es).value) && Run(p, s, es).value.legacy == s.legacy
  {
    hide Inv, QuotaInv;
    if es == [] {
      InitialInv(p, s);
    } else {
      AlwaysInv(p, s, es[..|es| - 1]);
      var before := Run(p, s, es[..|es| - 1]).value;
      StepKeepsInv(p, before, es[|es| - 1]);
      StepKeepsQuotas(p, before, es[|es| - 1]);
    }
  }

  lemma InitialInv(p: Policy, s: State)
    requires Initial(s)
    ensures Inv(s) && QuotaInv(p, s)
  {
  }

  /** Submit is called for a row only when the durable journal holds that row as unknown, and at most once. */
  lemma SubmitsAreSafe(p: Policy, s: State, es: seq<Event>, k: nat)
    requires Initial(s) && Run(p, s, es).Some? && k < |Run(p, s, es).value.submits|
    ensures var submits := Run(p, s, es).value.submits;
            && DurablyUnknown(submits[k])
            && forall l :: 0 <= l < |submits| && l != k ==> submits[l].id != submits[k].id
  {
    AlwaysInv(p, s, es);
    var submits := Run(p, s, es).value.submits;
    forall l | 0 <= l < |submits| && l != k ensures submits[l].id != submits[k].id {
      if l < k { assert submits[l].id != submits[k].id; } else { assert submits[k].id != submits[l].id; }
    }
  }

  /** A receipt of the row was reconciled: its own transfer, mined, and successful exactly when it is confirmed. */
  ghost predicate Reconciled(s: State, row: Row) {
    && row.id in s.receipts
    && var r := s.receipts[row.id];
    && row.txhash == Some(r.txhash) && row.chainId == r.chainId && row.sender == r.sender && row.address == r.recipient
    && row.denom == r.denom && row.amount == r.amount && r.height > 0 && r.code >= 0
    && row.state == if r.code == 0 then Confirmed else FailedDefinite
  }

  /** A submitted row reloads as pending until a receipt that matches it in every respect was reconciled. */
  lemma SubmittedStaysPending(p: Policy, s: State, es: seq<Event>, k: nat)
    requires Initial(s) && Run(p, s, es).Some? && k < |Run(p, s, es).value.submits|
    ensures var now := Run(p, s, es).value;
            exists i :: 0 <= i < |now.disk| && now.disk[i].id == now.submits[k].id && now.disk[i].state != Reserved
              && (now.disk[i].state in {Prepared, Submitted, Unknown} || Reconciled(now, now.disk[i]))
    ensures var now := Run(p, s, es).value;
            now.memory.None? ==> Apply(p, now, Open).memory.value.rows == now.disk
  {
    AlwaysInv(p, s, es);
    var now := Run(p, s, es).value;
    var i := Find(now.disk, now.submits[k].id).value;
    assert WasSubmitted(now, now.disk[i].id);
  }

  /** A confirmed or definitely failed row never changes again, whatever happens after. */
  lemma {:induction false} FinalIsForever(p: Policy, s: State, es: seq<Event>, n: nat, i: nat)
    requires Initial(s) && Run(p, s, es).Some? && n <= |es| && Run(p, s, es[..n]).Some?
    requires i < |Run(p, s, es[..n]).value.disk| && !Pending(Run(p, s, es[..n]).value.disk[i].state)
    ensures i < |Run(p, s, es).value.disk| && Run(p, s, es).value.disk[i] == Run(p, s, es[..n]).value.disk[i]
  {
    if n == |es| {
      assert es[..n] == es;
    } else {
      var front := es[..|es| - 1];
      assert front[..n] == es[..n];
      FinalIsForever(p, s, front, n, i);
      AlwaysInv(p, s, front);
      StepKeepsInv(p, Run(p, s, front).value, es[|es| - 1]);
    }
  }

  /** Any durable row that was claimed lies at least the address window after every earlier row of its address. */
  lemma AddressQuota(p: Policy, s: State, es: seq<Event>, i: nat, j: nat)
    requires Initial(s) && Run(p, s, es).Some?
    requires i < j < |Run(p, s, es).value.disk| && s.legacy <= j
    requires Run(p, s, es).value.disk[i].address == Run(p, s, es).value.disk[j].address
    ensures Run(p, s, es).value.disk[j].at - Run(p, s, es).value.disk[i].at >= p.addressWindow
  {
    AlwaysInv(p, s, es);
  }

  ghost predicate IsLargest(a: set<nat>, m: nat) { m in a && forall x | x in a :: x <= m }

  lemma {:induction false} HasLargest(a: set<nat>)
    requires a != {}
    ensures exists m :: IsLargest(a, m)
    decreases |a|
  {
    var x :| x in a;
    if a == {x} {
      assert IsLargest(a, x);
    } else {
      var rest := a - {x};
      HasLargest(rest);
      var m :| IsLargest(rest, m);
      assert forall y | y in a :: y == x || y in rest;
      assert IsLargest(a, if x <= m then m else x);
    }
  }

  lemma WindowBound(p: Policy, disk: seq<Row>, legacy: nat, rows: set<nat>, ip: string, t: int, claimed: nat)
    requires QuotasKept(p, disk, legacy) && claimed in rows && legacy <= claimed
    requires forall i | i in rows :: i < |disk| && disk[i].ip == ip && t <= disk[i].at < t + p.ipWindow
    ensures |rows| <= p.ipLimit
  {
    HasLargest(rows);
    var last :| IsLargest(rows, last);
    assert rows - {last} <= Recent(p, disk, last);
    ProperSubsetSmaller(rows - {last}, Recent(p, disk, last));
    assert |rows| == |rows - {last}| + 1;
  }

  /** Durable rows of one IP within one half-open window, at least one of them claimed, number at most the limit. */
  lemma IpQuota(p: Policy, s: State, es: seq<Event>, rows: set<nat>, ip: string, t: int, claimed: nat)
    requires Initial(s) && Run(p, s, es).Some?
    requires claimed in rows && s.legacy <= claimed
    requires var disk := Run(p, s, es).value.disk;
             forall i | i in rows :: i < |disk| && disk[i].ip == ip && t <= disk[i].at < t + p.ipWindow
    ensures |rows| <= p.ipLimit
  {
    AlwaysInv(p, s, es);
    WindowBound(p, Run(p, s, es).value.disk, s.legacy, rows, ip, t, claimed);
  }
}
