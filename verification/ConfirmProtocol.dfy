/** Confirm before change: the store of pending changes and the steps that use it. */
module ConfirmProtocol {
  import opened Wrappers

  const DAY_MS: int := 24 * 60 * 60 * 1000
  const MAX_KEPT: nat := 50
  const CODE_LENGTH: nat := 6

  datatype Status = Pending | Applying | Applied | Failed

  /** A recorded change. The id stands for the identity of the entry object, by which the program tells entries apart.
      The change is the tool, the workspace, the operation, its parameters and their summary. */
  datatype Entry = Entry(
    id: nat,
    code: string,
    change: string,
    requester: string,
    account: Option<string>,
    createdAt: int,
    expiresAt: int,
    status: Status
  )

  // ---------- the pure steps ----------

  function Live(entries: seq<Entry>, now: int): seq<Entry> {
    if entries == [] then []
    else
      var k := |entries| - 1;
      Live(entries[..k], now) + if entries[k].expiresAt + DAY_MS > now then [entries[k]] else []
  }

  function LastOf(entries: seq<Entry>, n: nat): seq<Entry> {
    if |entries| <= n then entries else entries[|entries| - n..]
  }

  function Prune(entries: seq<Entry>, now: int): seq<Entry> {
    LastOf(Live(entries, now), MAX_KEPT)
  }

  predicate HasCode(entries: seq<Entry>, code: string) {
    exists i :: 0 <= i < |entries| && entries[i].code == code
  }

  /** The first entry with the code. */
  function Find(entries: seq<Entry>, code: string): (r: Option<Entry>)
    ensures r.None? <==> !HasCode(entries, code)
    ensures r.Some? ==> r.value in entries && r.value.code == code
  {
    if entries == [] then None
    else if entries[0].code == code then Some(entries[0])
    else
      var r := Find(entries[1..], code);
      assert HasCode(entries[1..], code) ==> HasCode(entries, code);
      assert forall i :: 0 < i < |entries| ==> entries[i] == entries[1..][i - 1];
      r
  }

  predicate IsCode(s: string) {
    |s| == CODE_LENGTH && forall i :: 0 <= i < |s| ==> 'A' <= s[i] <= 'Z' || '2' <= s[i] <= '9'
  }

  function Without(entries: seq<Entry>, id: nat): seq<Entry> {
    if entries == [] then []
    else
      var k := |entries| - 1;
      Without(entries[..k], id) + if entries[k].id == id then [] else [entries[k]]
  }

  function Commit(entries: seq<Entry>, id: nat): seq<Entry> {
    seq(|entries|, i requires 0 <= i < |entries| =>
      if entries[i].id == id then entries[i].(status := Applying) else entries[i])
  }

  function Complete(entries: seq<Entry>, code: string, status: Status): seq<Entry> {
    seq(|entries|, i requires 0 <= i < |entries| =>
      if entries[i].code == code then entries[i].(status := status) else entries[i])
  }

  datatype Reason = Usage | NoMatch | NotOperator | AlreadyHandled | Expired | OtherRequester

  datatype Outcome =
    | Reply(reason: Reason, store: seq<Entry>)
    | Silent(store: seq<Entry>)
    | Committed(entry: Entry, store: seq<Entry>)

  /** Who confirms: the account that heard the command, if known, and the sender, if it is a user at all. */
  datatype Request = Request(code: string, sender: Option<string>, account: Option<string>, operators: set<string>, now: int)

  function Resolve(store: seq<Entry>, request: Request): Outcome {
    if !IsCode(request.code) then Reply(Usage, store)
    else match Find(store, request.code)
      case None => Reply(NoMatch, store)
      case Some(entry) =>
        if entry.account.Some? && request.account.Some? && entry.account != request.account then Silent(store)
        else if request.sender.None? || request.sender.value !in request.operators then Reply(NotOperator, store)
        else if entry.status != Pending then Reply(AlreadyHandled, store)
        else if entry.expiresAt <= request.now then Reply(Expired, Without(store, entry.id))
        else if entry.requester != request.sender.value then Reply(OtherRequester, store)
        else Committed(entry, Commit(store, entry.id))
  }

  /** The entry may be committed on this request. */
  predicate MayCommit(entry: Entry, request: Request) {
    (entry.account.None? || request.account.None? || entry.account == request.account)
    && request.sender == Some(entry.requester) && entry.requester in request.operators
    && entry.status.Pending? && request.now < entry.expiresAt
  }

  // ---------- runs ----------

  /** A recorded confirmation. */
  datatype Confirmation = Confirmation(id: nat, request: Request)

  /** The store, and what happened so far: every change recorded, every confirmation, and the ids of the committed
      changes whose command has not ended. */
  datatype State = State(
    store: seq<Entry>,
    recorded: seq<Entry>,
    confirmations: seq<Confirmation>,
    running: set<nat>
  )

  datatype Proposal = Proposal(
    change: string,
    requester: string,
    account: Option<string>,
    operators: set<string>,
    now: int,
    ttl: int,
    draws: seq<string>
  )

  datatype Step =
    | Propose(proposal: Proposal)
    | Confirm(request: Request)
    | Finish(id: nat, succeeded: bool)

  function FirstFresh(draws: seq<string>, entries: seq<Entry>): (r: Option<string>)
    ensures r.Some? ==> !HasCode(entries, r.value)
  {
    if draws == [] then None
    else if HasCode(entries, draws[0]) then FirstFresh(draws[1..], entries)
    else Some(draws[0])
  }

  /** A proposal by someone else than an operator is refused; without a fresh code it never comes to an end. */
  predicate Goes(s: State, p: Proposal) {
    p.requester in p.operators && FirstFresh(p.draws, Prune(s.store, p.now)).Some?
  }

  function NewEntry(s: State, p: Proposal): Entry
    requires Goes(s, p)
  {
    Entry(|s.recorded|, FirstFresh(p.draws, Prune(s.store, p.now)).value, p.change, p.requester, p.account, p.now,
      p.now + p.ttl, Pending)
  }

  function Apply(s: State, step: Step): State {
    match step
    case Propose(p) =>
      if !Goes(s, p) then s
      else s.(store := Prune(s.store, p.now) + [NewEntry(s, p)], recorded := s.recorded + [NewEntry(s, p)])
    case Confirm(request) =>
      (match Resolve(Prune(s.store, request.now), request)
       case Committed(entry, store) =>
         s.(store := store, confirmations := s.confirmations + [Confirmation(entry.id, request)],
            running := s.running + {entry.id})
       case outcome => s.(store := outcome.store))
    case Finish(id, succeeded) =>
      if id !in s.running || id >= |s.recorded| then s
      else s.(store := Complete(s.store, s.recorded[id].code, if succeeded then Applied else Failed),
              running := s.running - {id})
  }

  const INIT := State([], [], [], {})

  function Run(s: State, steps: seq<Step>): State {
    if steps == [] then s else Apply(Run(s, steps[..|steps| - 1]), steps[|steps| - 1])
  }

  // ---------- what every step keeps ----------

  predicate Increasing(entries: seq<Entry>) {
    forall i, j :: 0 <= i < j < |entries| ==> entries[i].id < entries[j].id
  }

  predicate DistinctCodes(entries: seq<Entry>) {
    forall i, j :: 0 <= i < j < |entries| ==> entries[i].code != entries[j].code
  }

  predicate SameChange(e: Entry, f: Entry) {
    e == f.(status := e.status)
  }

  /** Every entry is one of the recorded changes. */
  predicate Known(entries: seq<Entry>, recorded: seq<Entry>) {
    forall i :: 0 <= i < |entries| ==> entries[i].id < |recorded| && SameChange(entries[i], recorded[entries[i].id])
  }

  predicate IsConfirmed(confirmations: seq<Confirmation>, id: nat) {
    exists i :: 0 <= i < |confirmations| && confirmations[i].id == id
  }

  predicate PendingUnconfirmed(entries: seq<Entry>, confirmations: seq<Confirmation>) {
    forall i :: 0 <= i < |entries| && entries[i].status.Pending? ==> !IsConfirmed(confirmations, entries[i].id)
  }

  predicate StoreOk(entries: seq<Entry>, recorded: seq<Entry>, confirmations: seq<Confirmation>) {
    Increasing(entries) && DistinctCodes(entries) && Known(entries, recorded)
    && PendingUnconfirmed(entries, confirmations)
  }

  /** Each change was confirmed at most once, with its own code, by its own requester, an operator, before it expired. */
  predicate ConfirmationsOk(recorded: seq<Entry>, confirmations: seq<Confirmation>) {
    (forall i :: 0 <= i < |confirmations| ==> confirmations[i].id < |recorded|)
    && (forall i :: 0 <= i < |confirmations| ==>
      var c, e := confirmations[i].request, recorded[confirmations[i].id];
      c.code == e.code && MayCommit(e, c))
    && forall i, j :: 0 <= i < j < |confirmations| ==> confirmations[i].id != confirmations[j].id
  }

  predicate RecordedOk(recorded: seq<Entry>) {
    forall i :: 0 <= i < |recorded| ==> recorded[i].id == i && recorded[i].status.Pending?
  }

  predicate Inv(s: State) {
    |s.store| <= MAX_KEPT + 1 && StoreOk(s.store, s.recorded, s.confirmations)
    && ConfirmationsOk(s.recorded, s.confirmations) && RecordedOk(s.recorded)
  }

  /** The entries are some of the others, in order. */
  ghost predicate SubList(part: seq<Entry>, whole: seq<Entry>) {
    Increasing(part) && forall i :: 0 <= i < |part| ==> part[i] in whole
  }

  lemma {:induction false} LiveIsPart(entries: seq<Entry>, now: int)
    requires Increasing(entries)
    ensures SubList(Live(entries, now), entries)
    ensures forall e :: e in Live(entries, now) <==> e in entries && e.expiresAt + DAY_MS > now
  {
    if entries != [] {
      var k := |entries| - 1;
      LiveIsPart(entries[..k], now);
      assert entries == entries[..k] + [entries[k]];
      var before := Live(entries[..k], now);
      forall i | 0 <= i < |before| ensures before[i].id < entries[k].id {
        var j := InPrefix(entries, before[i], k);
      }
      hide Live;
      assert Live(entries, now) == before + if entries[k].expiresAt + DAY_MS > now then [entries[k]] else [] by {
        LiveLast(entries, now);
      }
    }
  }

  lemma InPrefix(entries: seq<Entry>, e: Entry, k: nat) returns (j: nat)
    requires k <= |entries| && e in entries[..k]
    ensures j < k && entries[j] == e
  {
    j :| 0 <= j < k && entries[..k][j] == e;
  }

  lemma LiveLast(entries: seq<Entry>, now: int)
    requires entries != []
    ensures var k := |entries| - 1;
      Live(entries, now) == Live(entries[..k], now) + if entries[k].expiresAt + DAY_MS > now then [entries[k]] else []
  {
  }

  lemma PruneIsPart(entries: seq<Entry>, now: int)
    requires Increasing(entries)
    ensures SubList(Prune(entries, now), entries) && |Prune(entries, now)| <= MAX_KEPT
  {
    LiveIsPart(entries, now);
  }

  lemma {:induction false} WithoutIsPart(entries: seq<Entry>, id: nat)
    requires Increasing(entries)
    ensures SubList(Without(entries, id), entries) && |Without(entries, id)| <= |entries|
  {
    if entries != [] {
      WithoutIsPart(entries[..|entries| - 1], id);
    }
  }

  lemma PartIsOk(part: seq<Entry>, whole: seq<Entry>, recorded: seq<Entry>, confirmations: seq<Confirmation>)
    requires SubList(part, whole) && StoreOk(whole, recorded, confirmations)
    ensures StoreOk(part, recorded, confirmations)
  {
    hide IsConfirmed;
    forall i, j | 0 <= i < j < |part| ensures part[i].code != part[j].code {
      var k :| 0 <= k < |whole| && whole[k] == part[i];
      var l :| 0 <= l < |whole| && whole[l] == part[j];
      assert k != l;
    }
    forall i | 0 <= i < |part|
      ensures part[i].id < |recorded| && SameChange(part[i], recorded[part[i].id])
      ensures part[i].status.Pending? ==> !IsConfirmed(confirmations, part[i].id)
    {
      var k :| 0 <= k < |whole| && whole[k] == part[i];
    }
  }

  lemma ProposeKeepsInv(s: State, p: Proposal)
    requires Inv(s)
    ensures Inv(Apply(s, Propose(p)))
  {
    hide Prune, SubList, FirstFresh;
    if Goes(s, p) {
      var kept, e := Prune(s.store, p.now), NewEntry(s, p);
      PruneIsPart(s.store, p.now);
      PartIsOk(kept, s.store, s.recorded, s.confirmations);
      forall i | 0 <= i < |kept| ensures kept[i].code != e.code {
        assert !HasCode(kept, e.code);
      }
    }
  }

  lemma ConfirmKeepsInv(s: State, request: Request)
    requires Inv(s)
    ensures Inv(Apply(s, Confirm(request)))
  {
    hide Prune, SubList, Without, Find, IsCode;
    var kept := Prune(s.store, request.now);
    PruneIsPart(s.store, request.now);
    PartIsOk(kept, s.store, s.recorded, s.confirmations);
    match Resolve(kept, request)
    case Committed(entry, store) =>
      CommitKeepsOk(kept, entry, s.recorded, s.confirmations, request);
    case Silent(_) =>
    case Reply(reason, _) =>
      if reason.Expired? {
        var entry := Find(kept, request.code).value;
        WithoutIsPart(kept, entry.id);
        PartIsOk(Without(kept, entry.id), kept, s.recorded, s.confirmations);
      }
  }

  lemma CommitKeepsOk(kept: seq<Entry>, entry: Entry, recorded: seq<Entry>, confirmations: seq<Confirmation>,
      request: Request)
    requires StoreOk(kept, recorded, confirmations) && ConfirmationsOk(recorded, confirmations) && RecordedOk(recorded)
    requires entry in kept && entry.code == request.code && MayCommit(entry, request)
    ensures StoreOk(Commit(kept, entry.id), recorded, confirmations + [Confirmation(entry.id, request)])
    ensures ConfirmationsOk(recorded, confirmations + [Confirmation(entry.id, request)])
  {
    CommitKeepsConfirmations(kept, entry, recorded, confirmations, request);
    hide ConfirmationsOk, MayCommit;
    var k :| 0 <= k < |kept| && kept[k] == entry;
    var more := confirmations + [Confirmation(entry.id, request)];
    forall i | 0 <= i < |kept| && i != k && kept[i].status.Pending? ensures !IsConfirmed(more, kept[i].id) {
      assert !IsConfirmed(confirmations, kept[i].id);
      assert kept[i].id != entry.id;
    }
  }

  lemma CommitKeepsConfirmations(kept: seq<Entry>, entry: Entry, recorded: seq<Entry>,
      confirmations: seq<Confirmation>, request: Request)
    requires StoreOk(kept, recorded, confirmations) && ConfirmationsOk(recorded, confirmations) && RecordedOk(recorded)
    requires entry in kept && entry.code == request.code && MayCommit(entry, request)
    ensures ConfirmationsOk(recorded, confirmations + [Confirmation(entry.id, request)])
  {
    hide DistinctCodes, Increasing;
    var k :| 0 <= k < |kept| && kept[k] == entry;
    assert !IsConfirmed(confirmations, entry.id);
    assert MayCommit(recorded[entry.id], request);
  }

  lemma FinishKeepsInv(s: State, id: nat, succeeded: bool)
    requires Inv(s)
    ensures Inv(Apply(s, Finish(id, succeeded)))
  {
    hide IsConfirmed;
  }

  /** In every run codes stay distinct, the store stays within 51 entries, and each change is confirmed at most once,
      by its requester, an operator, before it expires. */
  lemma {:induction false} EveryRunKeepsInv(steps: seq<Step>)
    ensures Inv(Run(INIT, steps))
  {
    hide Apply, Inv;
    if steps == [] {
      assert Inv(INIT) by {
        InitialInv();
      }
    } else {
      var k := |steps| - 1;
      EveryRunKeepsInv(steps[..k]);
      StepKeepsInv(Run(INIT, steps[..k]), steps[k]);
    }
  }

  lemma InitialInv()
    ensures Inv(INIT)
  {
  }

  lemma StepKeepsInv(s: State, step: Step)
    requires Inv(s)
    ensures Inv(Apply(s, step))
  {
    hide Apply, Inv;
    match step
    case Propose(p) => ProposeKeepsInv(s, p);
    case Confirm(request) => ConfirmKeepsInv(s, request);
    case Finish(id, succeeded) => FinishKeepsInv(s, id, succeeded);
  }

  // ---------- what a confirm step commits ----------

  ghost predicate Holds(entries: seq<Entry>, id: nat, pending: bool) {
    exists i :: 0 <= i < |entries| && entries[i].id == id && entries[i].status.Pending? == pending
  }

  /** In every reachable state a confirm step records a confirmation of a change exactly when the request names its code,
      its entry survives the pruning and is pending, and the change as it was recorded may be committed on the request. */
  lemma ConfirmRecordsIff(s: State, request: Request, id: nat)
    requires Inv(s)
    ensures Apply(s, Confirm(request)).confirmations == s.confirmations + [Confirmation(id, request)] <==>
      IsCode(request.code) && id < |s.recorded| && s.recorded[id].code == request.code
      && Holds(Prune(s.store, request.now), id, true) && MayCommit(s.recorded[id], request)
  {
    hide Prune, Find, IsCode, SubList, IsConfirmed, ConfirmationsOk, Without, Commit;
    var kept := Prune(s.store, request.now);
    PruneIsPart(s.store, request.now);
    PartIsOk(kept, s.store, s.recorded, s.confirmations);
    var more := s.confirmations + [Confirmation(id, request)];
    assert more != s.confirmations by {
      assert |more| == |s.confirmations| + 1;
    }
    if Holds(kept, id, true) && id < |s.recorded| && s.recorded[id].code == request.code {
      var i :| 0 <= i < |kept| && kept[i].id == id && kept[i].status.Pending?;
      assert SameChange(kept[i], s.recorded[id]);
      assert kept[i].code == request.code;
      FindIs(kept, i);
    }
    match Resolve(kept, request)
    case Committed(entry, _) =>
      LastConfirmation(s.confirmations, Confirmation(entry.id, request), Confirmation(id, request));
      CommittedIsRecorded(kept, s.recorded, request, entry);
    case Silent(_) =>
    case Reply(_, _) =>
  }

  lemma FindIs(entries: seq<Entry>, i: nat)
    requires i < |entries| && DistinctCodes(entries)
    ensures Find(entries, entries[i].code) == Some(entries[i])
  {
    hide Find;
    var r := Find(entries, entries[i].code);
    assert HasCode(entries, entries[i].code);
    var j :| 0 <= j < |entries| && entries[j] == r.value;
  }

  lemma LastConfirmation(confirmations: seq<Confirmation>, c: Confirmation, d: Confirmation)
    ensures confirmations + [c] == confirmations + [d] <==> c == d
  {
    assert (confirmations + [c])[|confirmations|] == c && (confirmations + [d])[|confirmations|] == d;
  }

  lemma CommittedIsRecorded(kept: seq<Entry>, recorded: seq<Entry>, request: Request, entry: Entry)
    requires Known(kept, recorded) && RecordedOk(recorded) && entry in kept && entry.status.Pending?
    ensures entry.id < |recorded| && entry == recorded[entry.id] && Holds(kept, entry.id, true)
  {
    var i :| 0 <= i < |kept| && kept[i] == entry;
    assert SameChange(kept[i], recorded[entry.id]);
  }

  /** Pruning drops a change that may be committed only for the cap. */
  lemma SmallStoreKeepsCommittable(s: State, request: Request, id: nat)
    requires Inv(s) && |s.store| <= MAX_KEPT && id < |s.recorded| && MayCommit(s.recorded[id], request)
    ensures Holds(Prune(s.store, request.now), id, true) <==> Holds(s.store, id, true)
  {
    hide Prune, MayCommit, ConfirmationsOk, IsConfirmed;
    assert request.now < s.recorded[id].expiresAt by {
      MayCommitInTime(s.recorded[id], request);
    }
    if Holds(Prune(s.store, request.now), id, true) {
      PartHolds(Prune(s.store, request.now), s.store, request.now, id);
    }
    if Holds(s.store, id, true) {
      var i :| 0 <= i < |s.store| && s.store[i].id == id && s.store[i].status.Pending?;
      assert SameChange(s.store[i], s.recorded[id]);
      SmallPrune(s.store, request.now);
      LiveIsPart(s.store, request.now);
      var kept := Prune(s.store, request.now);
      assert s.store[i] in kept;
      var j :| 0 <= j < |kept| && kept[j] == s.store[i];
    }
  }

  lemma MayCommitInTime(e: Entry, request: Request)
    requires MayCommit(e, request)
    ensures request.now < e.expiresAt
  {
  }

  lemma {:induction false} SmallPrune(entries: seq<Entry>, now: int)
    requires |entries| <= MAX_KEPT
    ensures Prune(entries, now) == Live(entries, now)
  {
    LiveIsShorter(entries, now);
  }

  lemma {:induction false} LiveIsShorter(entries: seq<Entry>, now: int)
    ensures |Live(entries, now)| <= |entries|
  {
    if entries != [] {
      LiveIsShorter(entries[..|entries| - 1], now);
    }
  }

  // ---------- a status never goes back to pending ----------

  lemma NoStepBackToPending(s: State, step: Step, id: nat)
    requires Inv(s) && id < |s.recorded| && Holds(Apply(s, step).store, id, true)
    ensures Holds(s.store, id, true)
  {
    hide SubList, Find, IsCode, IsConfirmed, ConfirmationsOk, DistinctCodes, Known, PendingUnconfirmed, Prune, Resolve;
    match step
    case Propose(p) =>
      if Goes(s, p) {
        var kept := Prune(s.store, p.now);
        assert Holds(kept, id, true);
        PartHolds(kept, s.store, p.now, id);
      }
    case Confirm(request) =>
      var kept := Prune(s.store, request.now);
      assert Increasing(kept) by {
        PruneIncreasing(s.store, request.now);
      }
      OutcomeHolds(kept, request, id);
      PartHolds(kept, s.store, request.now, id);
    case Finish(_, _) =>
  }

  lemma OutcomeHolds(kept: seq<Entry>, request: Request, id: nat)
    requires Increasing(kept) && Holds(Resolve(kept, request).store, id, true)
    ensures Holds(kept, id, true)
  {
    hide SubList, Find, IsCode, Without;
    match Resolve(kept, request)
    case Committed(entry, store) =>
      var i :| 0 <= i < |store| && store[i].id == id && store[i].status.Pending?;
      assert kept[i] == store[i];
    case Silent(_) =>
    case Reply(reason, store) =>
      if reason.Expired? {
        var entry := Find(kept, request.code).value;
        WithoutIsPart(kept, entry.id);
        var i :| 0 <= i < |store| && store[i].id == id && store[i].status.Pending?;
        var j := PartAt(Without(kept, entry.id), kept, i);
      }
  }

  lemma PruneIncreasing(entries: seq<Entry>, now: int)
    requires Increasing(entries)
    ensures Increasing(Prune(entries, now))
  {
    PruneIsPart(entries, now);
  }

  lemma PartAt(part: seq<Entry>, whole: seq<Entry>, i: nat) returns (j: nat)
    requires SubList(part, whole) && i < |part|
    ensures j < |whole| && whole[j] == part[i]
  {
    assert part[i] in whole;
    j :| 0 <= j < |whole| && whole[j] == part[i];
  }

  lemma PartHolds(part: seq<Entry>, whole: seq<Entry>, now: int, id: nat)
    requires Increasing(whole) && part == Prune(whole, now) && Holds(part, id, true)
    ensures Holds(whole, id, true)
  {
    hide Prune;
    PruneIsPart(whole, now);
    var i :| 0 <= i < |part| && part[i].id == id && part[i].status.Pending?;
    var j := PartAt(part, whole, i);
  }

  /** Once a change is not pending it is not pending in any later state of any run. */
  lemma {:induction false} NeverPendingAgain(s: State, steps: seq<Step>, id: nat)
    requires Inv(s) && Holds(s.store, id, false)
    ensures !Holds(Run(s, steps).store, id, true)
  {
    hide Apply, Inv;
    OneEntryPerId(s, id);
    if Holds(Run(s, steps).store, id, true) {
      PendingBefore(s, steps, id);
    }
  }

  lemma OneEntryPerId(s: State, id: nat)
    requires Inv(s) && Holds(s.store, id, false)
    ensures id < |s.recorded| && !Holds(s.store, id, true)
  {
  }

  lemma {:induction false} PendingBefore(s: State, steps: seq<Step>, id: nat)
    requires Inv(s) && id < |s.recorded| && Holds(Run(s, steps).store, id, true)
    ensures Holds(s.store, id, true)
    decreases |steps|
  {
    hide Apply, Inv;
    if steps != [] {
      var k := |steps| - 1;
      RunKeeps(s, steps[..k]);
      NoStepBackToPending(Run(s, steps[..k]), steps[k], id);
      PendingBefore(s, steps[..k], id);
    }
  }

  lemma {:induction false} RunKeeps(s: State, steps: seq<Step>)
    requires Inv(s)
    ensures Inv(Run(s, steps)) && |Run(s, steps).recorded| >= |s.recorded|
  {
    hide Inv;
    if steps != [] {
      var k := |steps| - 1;
      RunKeeps(s, steps[..k]);
      StepKeepsInv(Run(s, steps[..k]), steps[k]);
    }
  }

  // ---------- completing by code ----------

  /** What the store says was handled was confirmed. */
  predicate HandledWereConfirmed(s: State) {
    forall i :: 0 <= i < |s.store| && !s.store[i].status.Pending? ==> IsConfirmed(s.confirmations, s.store[i].id)
  }

  predicate PendingUnder(entries: seq<Entry>, code: string) {
    exists i :: 0 <= i < |entries| && entries[i].code == code && entries[i].status.Pending?
  }

  /** Completion goes by the code alone: it marks only confirmed changes exactly when no pending one has the code. */
  lemma FinishMarksConfirmedIff(s: State, id: nat, succeeded: bool)
    requires Inv(s) && HandledWereConfirmed(s) && id in s.running && id < |s.recorded|
    ensures HandledWereConfirmed(Apply(s, Finish(id, succeeded))) <==> !PendingUnder(s.store, s.recorded[id].code)
  {
    hide IsConfirmed;
    var t := Apply(s, Finish(id, succeeded));
    assert |t.store| == |s.store|;
    if PendingUnder(s.store, s.recorded[id].code) {
      var i :| 0 <= i < |s.store| && s.store[i].code == s.recorded[id].code && s.store[i].status.Pending?;
      assert t.store[i].id == s.store[i].id && !t.store[i].status.Pending?;
    }
  }

  lemma OtherStepsMarkConfirmed(s: State, step: Step)
    requires Inv(s) && HandledWereConfirmed(s) && !step.Finish?
    ensures HandledWereConfirmed(Apply(s, step))
  {
    hide SubList, Find, IsCode, Prune, Without, Known, SameChange, IsConfirmed;
    match step
    case Propose(p) =>
      if Goes(s, p) {
        PartHandled(Prune(s.store, p.now), s, p.now);
      }
    case Confirm(request) =>
      var kept := Prune(s.store, request.now);
      PartHandled(kept, s, request.now);
      match Resolve(kept, request) {
        case Committed(entry, store) =>
          CommitHandled(kept, entry.id, s.confirmations, request);
        case Silent(_) =>
        case Reply(reason, _) =>
          if reason.Expired? {
            var entry := Find(kept, request.code).value;
            assert Increasing(kept) by {
              PruneIncreasing(s.store, request.now);
            }
            WithoutIsPart(kept, entry.id);
            forall i | 0 <= i < |Without(kept, entry.id)| && !Without(kept, entry.id)[i].status.Pending?
              ensures IsConfirmed(s.confirmations, Without(kept, entry.id)[i].id)
            {
              var j := PartAt(Without(kept, entry.id), kept, i);
            }
          }
      }
  }

  lemma CommitHandled(kept: seq<Entry>, id: nat, confirmations: seq<Confirmation>, request: Request)
    requires forall i :: 0 <= i < |kept| && !kept[i].status.Pending? ==> IsConfirmed(confirmations, kept[i].id)
    ensures forall i :: 0 <= i < |kept| && !Commit(kept, id)[i].status.Pending? ==>
      IsConfirmed(confirmations + [Confirmation(id, request)], Commit(kept, id)[i].id)
  {
    var more := confirmations + [Confirmation(id, request)];
    assert more[|confirmations|].id == id;
    forall i | 0 <= i < |kept| && !kept[i].status.Pending? ensures IsConfirmed(more, kept[i].id) {
      var j :| 0 <= j < |confirmations| && confirmations[j].id == kept[i].id;
      assert more[j].id == kept[i].id;
    }
  }

  lemma PartHandled(part: seq<Entry>, s: State, now: int)
    requires Inv(s) && HandledWereConfirmed(s) && part == Prune(s.store, now)
    ensures forall i :: 0 <= i < |part| && !part[i].status.Pending? ==> IsConfirmed(s.confirmations, part[i].id)
  {
    hide IsConfirmed, Prune;
    PruneIsPart(s.store, now);
    forall i | 0 <= i < |part| && !part[i].status.Pending? ensures IsConfirmed(s.confirmations, part[i].id) {
      var j := PartAt(part, s.store, i);
    }
  }

  ghost predicate FinishesMeetNoPending(steps: seq<Step>) {
    forall k :: 0 <= k < |steps| ==> FinishMeetsNoPending(Run(INIT, steps[..k]), steps[k])
  }

  ghost predicate FinishMeetsNoPending(s: State, step: Step) {
    step.Finish? && step.id in s.running && step.id < |s.recorded| ==> !PendingUnder(s.store, s.recorded[step.id].code)
  }

  /** So in a run where no completion meets a pending change, only confirmed changes are ever marked. */
  lemma {:induction false} MarksConfirmedInRuns(steps: seq<Step>)
    requires FinishesMeetNoPending(steps)
    ensures HandledWereConfirmed(Run(INIT, steps))
  {
    hide Apply, Inv, PendingUnder;
    if steps != [] {
      var k := |steps| - 1;
      var before := steps[..k];
      forall i | 0 <= i < k ensures FinishMeetsNoPending(Run(INIT, before[..i]), before[i]) {
        assert before[..i] == steps[..i];
        assert FinishMeetsNoPending(Run(INIT, steps[..i]), steps[i]);
      }
      MarksConfirmedInRuns(before);
      EveryRunKeepsInv(before);
      var s := Run(INIT, before);
      assert FinishMeetsNoPending(s, steps[k]);
      if steps[k].Finish? {
        FinishMarks(s, steps[k].id, steps[k].succeeded);
      } else {
        OtherStepsMarkConfirmed(s, steps[k]);
      }
    }
  }

  lemma FinishMarks(s: State, id: nat, succeeded: bool)
    requires Inv(s) && HandledWereConfirmed(s) && FinishMeetsNoPending(s, Finish(id, succeeded))
    ensures HandledWereConfirmed(Apply(s, Finish(id, succeeded)))
  {
    if id in s.running && id < |s.recorded| {
      FinishMarksConfirmedIff(s, id, succeeded);
    }
  }

  // ---------- the plugin ----------

  class Plugin {
    var store: seq<Entry>
    var recordedCount: nat
    ghost var history: State

    ghost predicate Valid()
      reads this
    {
      history.store == store && |history.recorded| == recordedCount && Inv(history)
    }

    constructor ()
      ensures Valid() && history == INIT
    {
      store, recordedCount, history := [], 0, INIT;
      new;
      InitialInv();
    }

    /** Records a change, drawing codes until one is free. The code is what the requester is told. */
    method RecordChange(p: Proposal) returns (code: Option<string>)
      requires Valid()
      requires FirstFresh(p.draws, Prune(store, p.now)).Some?
      modifies this
      ensures Valid() && history == Apply(old(history), Propose(p))
      ensures code.Some? <==> p.requester in p.operators
      ensures code.Some? ==> |store| > 0 && store[|store| - 1] == NewEntry(old(history), p)
      ensures code.Some? ==> store[|store| - 1].code == code.value
    {
      hide Prune, Inv;
      if p.requester !in p.operators {
        return None;
      }
      var pruned := Prune(store, p.now);
      var i := 0;
      assert p.draws[0..] == p.draws;
      while i < |p.draws| && HasCode(pruned, p.draws[i])
        invariant i <= |p.draws| && FirstFresh(p.draws[i..], pruned) == FirstFresh(p.draws, pruned)
      {
        assert p.draws[i..][1..] == p.draws[i + 1..];
        i := i + 1;
      }
      var entry := Entry(recordedCount, p.draws[i], p.change, p.requester, p.account, p.now, p.now + p.ttl, Pending);
      assert entry == NewEntry(history, p);
      store := pruned + [entry];
      recordedCount := recordedCount + 1;
      StepKeepsInv(history, Propose(p));
      history := Apply(history, Propose(p));
      return Some(entry.code);
    }

    /** The first half of a confirmation. A committed change is what its command is then run for. */
    method StartConfirmation(request: Request) returns (outcome: Outcome)
      requires Valid()
      modifies this
      ensures Valid() && history == Apply(old(history), Confirm(request))
      ensures outcome == Resolve(Prune(old(store), request.now), request)
    {
      hide Prune, Inv, Resolve;
      outcome := Resolve(Prune(store, request.now), request);
      store := outcome.store;
      StepKeepsInv(history, Confirm(request));
      history := Apply(history, Confirm(request));
    }

    /** The second half, after the command of a committed change has ended. */
    method FinishConfirmation(entry: Entry, succeeded: bool)
      requires Valid() && entry.id in history.running
      requires entry.id < |history.recorded| && SameChange(entry, history.recorded[entry.id])
      modifies this
      ensures Valid() && history == Apply(old(history), Finish(entry.id, succeeded))
    {
      hide Inv;
      StepKeepsInv(history, Finish(entry.id, succeeded));
      history := Apply(history, Finish(entry.id, succeeded));
      store := Complete(store, entry.code, if succeeded then Applied else Failed);
    }
  }
}
