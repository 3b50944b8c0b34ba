/** What a completion marks: it goes by the code of the change alone, which may have been given out again. */
module Completion {
  import opened Wrappers
  import opened ConfirmProtocol

  // ---------- it marks its own change ----------

  function StatusAfter(succeeded: bool): Status {
    if succeeded then Applied else Failed
  }

  /** The entry of one change marked and all others as they were. */
  function Marked(entries: seq<Entry>, id: nat, status: Status): seq<Entry> {
    seq(|entries|, i requires 0 <= i < |entries| =>
      if entries[i].id == id then entries[i].(status := status) else entries[i])
  }

  predicate OwnsCode(entries: seq<Entry>, id: nat, code: string) {
    forall i :: 0 <= i < |entries| && entries[i].code == code ==> entries[i].id == id
  }

  lemma OwnCodeMarksOwn(s: State, id: nat, succeeded: bool)
    requires Inv(s) && id in s.running && id < |s.recorded| && OwnsCode(s.store, id, s.recorded[id].code)
    ensures Apply(s, Finish(id, succeeded)).store == Marked(s.store, id, StatusAfter(succeeded))
  {
    hide ConfirmationsOk, PendingUnconfirmed;
    forall i | 0 <= i < |s.store| ensures s.store[i].id == id <==> s.store[i].code == s.recorded[id].code {
      assert SameChange(s.store[i], s.recorded[s.store[i].id]);
    }
  }

  /** While the change is stored no other entry can have its code. */
  lemma StoredOwnsCode(s: State, id: nat, pending: bool)
    requires Inv(s) && id < |s.recorded| && Holds(s.store, id, pending)
    ensures OwnsCode(s.store, id, s.recorded[id].code)
  {
    hide ConfirmationsOk, PendingUnconfirmed;
    var k :| 0 <= k < |s.store| && s.store[k].id == id;
    assert SameChange(s.store[k], s.recorded[id]);
  }

  /** Completing a change that is still stored marks exactly its entry. */
  lemma StoredFinishMarksOwn(s: State, id: nat, succeeded: bool)
    requires Inv(s) && id in s.running && id < |s.recorded|
    requires Holds(s.store, id, true) || Holds(s.store, id, false)
    ensures Apply(s, Finish(id, succeeded)).store == Marked(s.store, id, StatusAfter(succeeded))
  {
    StoredOwnsCode(s, id, Holds(s.store, id, true));
    OwnCodeMarksOwn(s, id, succeeded);
  }

  // ---------- how long a running change stays stored ----------

  predicate Within(step: Step, until: int) {
    match step
    case Propose(p) => p.now <= until
    case Confirm(request) => request.now <= until
    case Finish(_, _) => true
  }

  lemma {:induction false} IdsSpread(entries: seq<Entry>, i: nat, j: nat)
    requires Increasing(entries) && i <= j < |entries|
    ensures entries[j].id - entries[i].id >= j - i
    decreases j
  {
    if i < j {
      IdsSpread(entries, i, j - 1);
    }
  }

  /** Pruning keeps what is live and has fewer than MAX_KEPT changes recorded after it. */
  lemma PruneKeepsRecent(entries: seq<Entry>, count: nat, now: int, e: Entry)
    requires Increasing(entries) && e in entries && e.expiresAt + DAY_MS > now
    requires (forall i :: 0 <= i < |entries| ==> entries[i].id < count) && count - 1 - e.id < MAX_KEPT
    ensures e in Prune(entries, now)
  {
    hide Live;
    var live := Live(entries, now);
    LiveIsPart(entries, now);
    var j :| 0 <= j < |live| && live[j] == e;
    IdsSpread(live, j, |live| - 1);
    assert live[|live| - 1] in entries;
    var last := LastOf(live, MAX_KEPT);
    assert |live| > MAX_KEPT ==> last[j - (|live| - MAX_KEPT)] == e;
  }

  /** The change is the one recorded, and is stored and no longer pending as long as few are recorded after it; no other
      entry has its code. */
  ghost predicate Tracked(s: State, e: Entry) {
    e.id < |s.recorded| && s.recorded[e.id] == e && OwnsCode(s.store, e.id, e.code)
    && (|s.recorded| - 1 - e.id < MAX_KEPT ==> Holds(s.store, e.id, false))
  }

  lemma StoredEntry(s: State, id: nat) returns (f: Entry)
    requires Inv(s) && id < |s.recorded| && Holds(s.store, id, false)
    ensures f in s.store && f.id == id && SameChange(f, s.recorded[id]) && !f.status.Pending?
    ensures forall i :: 0 <= i < |s.store| ==> s.store[i].id < |s.recorded|
    ensures Increasing(s.store)
  {
    hide ConfirmationsOk, PendingUnconfirmed, DistinctCodes;
    var k :| 0 <= k < |s.store| && s.store[k].id == id && !s.store[k].status.Pending?;
    f := s.store[k];
    assert SameChange(s.store[k], s.recorded[id]);
  }

  lemma PartOwnsCode(part: seq<Entry>, whole: seq<Entry>, id: nat, code: string)
    requires SubList(part, whole) && OwnsCode(whole, id, code)
    ensures OwnsCode(part, id, code)
  {
    forall i | 0 <= i < |part| && part[i].code == code ensures part[i].id == id {
      var j := PartAt(part, whole, i);
    }
  }

  lemma KeptEntry(s: State, e: Entry, now: int, until: int)
    requires Inv(s) && Tracked(s, e) && now <= until < e.expiresAt + DAY_MS
    ensures OwnsCode(Prune(s.store, now), e.id, e.code)
    ensures |s.recorded| - 1 - e.id < MAX_KEPT ==> Holds(Prune(s.store, now), e.id, false)
  {
    hide Prune, Inv, OwnsCode;
    StoreIncreasing(s);
    PruneIsPart(s.store, now);
    PartOwnsCode(Prune(s.store, now), s.store, e.id, e.code);
    if |s.recorded| - 1 - e.id < MAX_KEPT {
      var f := StoredEntry(s, e.id);
      PruneKeepsRecent(s.store, |s.recorded|, now, f);
      var kept := Prune(s.store, now);
      var j :| 0 <= j < |kept| && kept[j] == f;
    }
  }

  lemma StoreIncreasing(s: State)
    requires Inv(s)
    ensures Increasing(s.store)
  {
  }

  lemma ProposeTracks(s: State, p: Proposal, e: Entry, until: int)
    requires Inv(s) && Tracked(s, e) && p.now <= until < e.expiresAt + DAY_MS
    requires |Apply(s, Propose(p)).recorded| - 1 - e.id <= MAX_KEPT
    ensures Tracked(Apply(s, Propose(p)), e)
  {
    hide Prune, Inv, FirstFresh;
    if Goes(s, p) {
      KeptEntry(s, e, p.now, until);
      var kept, f := Prune(s.store, p.now), NewEntry(s, p);
      var i :| 0 <= i < |kept| && kept[i].id == e.id && !kept[i].status.Pending?;
      assert kept[i] == (kept + [f])[i];
      assert f.code != e.code by {
        KeptCode(s, e, p.now, i);
        assert !HasCode(kept, f.code);
      }
    }
  }

  lemma KeptCode(s: State, e: Entry, now: int, i: nat)
    requires Inv(s) && Tracked(s, e) && i < |Prune(s.store, now)| && Prune(s.store, now)[i].id == e.id
    ensures Prune(s.store, now)[i].code == e.code
  {
    hide Prune, ConfirmationsOk, PendingUnconfirmed, DistinctCodes;
    PruneIsPart(s.store, now);
    var j := PartAt(Prune(s.store, now), s.store, i);
    assert SameChange(s.store[j], s.recorded[e.id]);
  }

  lemma ConfirmTracks(s: State, request: Request, e: Entry, until: int)
    requires Inv(s) && Tracked(s, e) && request.now <= until < e.expiresAt + DAY_MS
    ensures Tracked(Apply(s, Confirm(request)), e)
  {
    hide Prune, Inv, Find, IsCode, Without;
    KeptEntry(s, e, request.now, until);
    var kept := Prune(s.store, request.now);
    assert Increasing(kept) by {
      StoreIncreasing(s);
      PruneIncreasing(s.store, request.now);
    }
    match Resolve(kept, request)
    case Committed(entry, store) =>
      assert forall i :: 0 <= i < |kept| ==> store[i].id == kept[i].id && store[i].code == kept[i].code;
      if Holds(kept, e.id, false) {
        var i :| 0 <= i < |kept| && kept[i].id == e.id && !kept[i].status.Pending?;
        assert store[i].id == e.id && !store[i].status.Pending?;
      }
    case Silent(_) =>
    case Reply(reason, store) =>
      if reason.Expired? {
        var entry := Find(kept, request.code).value;
        WithoutIsPart(kept, entry.id);
        PartOwnsCode(store, kept, e.id, e.code);
        if Holds(kept, e.id, false) {
          WithoutOtherHolds(kept, entry, e.id);
        }
      }
  }

  lemma WithoutOtherHolds(kept: seq<Entry>, entry: Entry, id: nat)
    requires Increasing(kept) && entry in kept && entry.status.Pending? && Holds(kept, id, false)
    ensures Holds(Without(kept, entry.id), id, false)
  {
    var i :| 0 <= i < |kept| && kept[i].id == id && !kept[i].status.Pending?;
    var j :| 0 <= j < |kept| && kept[j] == entry;
    WithoutKeeps(kept, entry.id, i);
    var rest := Without(kept, entry.id);
    var k :| 0 <= k < |rest| && rest[k] == kept[i];
  }

  lemma {:induction false} WithoutKeeps(entries: seq<Entry>, id: nat, i: nat)
    requires i < |entries| && entries[i].id != id
    ensures entries[i] in Without(entries, id)
    decreases |entries|
  {
    if i < |entries| - 1 {
      WithoutKeeps(entries[..|entries| - 1], id, i);
    }
  }

  lemma FinishTracks(s: State, id: nat, succeeded: bool, e: Entry)
    requires Tracked(s, e)
    ensures Tracked(Apply(s, Finish(id, succeeded)), e)
  {
    var t := Apply(s, Finish(id, succeeded));
    assert forall i :: 0 <= i < |s.store| ==> t.store[i].id == s.store[i].id && t.store[i].code == s.store[i].code;
    if Holds(s.store, e.id, false) {
      var i :| 0 <= i < |s.store| && s.store[i].id == e.id && !s.store[i].status.Pending?;
      assert t.store[i].id == e.id && !t.store[i].status.Pending?;
    }
  }

  lemma StepTracks(s: State, step: Step, e: Entry, until: int)
    requires Inv(s) && Tracked(s, e) && Within(step, until) && until < e.expiresAt + DAY_MS
    requires |Apply(s, step).recorded| - 1 - e.id <= MAX_KEPT
    ensures Tracked(Apply(s, step), e)
  {
    hide Apply, Inv, Tracked;
    match step
    case Propose(p) => ProposeTracks(s, p, e, until);
    case Confirm(request) => ConfirmTracks(s, request, e, until);
    case Finish(id, succeeded) => FinishTracks(s, id, succeeded, e);
  }

  lemma {:induction false} RunTracks(s: State, steps: seq<Step>, e: Entry, until: int)
    requires Inv(s) && Tracked(s, e) && until < e.expiresAt + DAY_MS
    requires forall k :: 0 <= k < |steps| ==> Within(steps[k], until)
    requires |Run(s, steps).recorded| - 1 - e.id <= MAX_KEPT
    ensures Inv(Run(s, steps)) && Tracked(Run(s, steps), e)
    decreases |steps|
  {
    hide Apply, Inv, Tracked;
    RunKeeps(s, steps);
    if steps != [] {
      var k := |steps| - 1;
      RunKeeps(s, steps[..k]);
      RecordsGrow(Run(s, steps[..k]), steps[k]);
      RunTracks(s, steps[..k], e, until);
      StepTracks(Run(s, steps[..k]), steps[k], e, until);
    }
  }

  lemma RecordsGrow(s: State, step: Step)
    ensures |Apply(s, step).recorded| >= |s.recorded|
  {
    hide Resolve, Prune;
  }

  lemma CommitTracks(s: State, request: Request)
    requires Inv(s) && Resolve(Prune(s.store, request.now), request).Committed?
    ensures var e := Resolve(Prune(s.store, request.now), request).entry;
      Inv(Apply(s, Confirm(request))) && Tracked(Apply(s, Confirm(request)), e) && request.now < e.expiresAt
  {
    hide Prune, Find, IsCode, SubList, ConfirmationsOk, IsConfirmed;
    var kept := Prune(s.store, request.now);
    PruneIsPart(s.store, request.now);
    PartIsOk(kept, s.store, s.recorded, s.confirmations);
    var e := Resolve(kept, request).entry;
    CommittedIsRecorded(kept, s.recorded, request, e);
    var i :| 0 <= i < |kept| && kept[i] == e;
    var t := Apply(s, Confirm(request));
    ConfirmKeepsInv(s, request);
    assert t.store[i].id == e.id && !t.store[i].status.Pending?;
    assert Holds(t.store, e.id, false);
    hide Inv;
    StoredOwnsCode(t, e.id, false);
  }

  /** A change is confirmed in a reachable state, any steps of the next 24 hours follow, and its command ends. If no more
      than 50 changes were recorded after it, completion alters no other entry; if fewer were, its own entry is still
      there to be marked. The command's time limit is far below 24 hours. */
  lemma FinishMarksItsChange(before: seq<Step>, request: Request, between: seq<Step>, succeeded: bool)
    requires var s := Run(INIT, before); Resolve(Prune(s.store, request.now), request).Committed?
    requires forall k :: 0 <= k < |between| ==> Within(between[k], request.now + DAY_MS)
    requires var s := Run(INIT, before);
      var id := Resolve(Prune(s.store, request.now), request).entry.id;
      var last := Run(Apply(s, Confirm(request)), between);
      id in last.running && |last.recorded| - 1 - id <= MAX_KEPT
    ensures var s := Run(INIT, before);
      var id := Resolve(Prune(s.store, request.now), request).entry.id;
      var last := Run(Apply(s, Confirm(request)), between);
      Apply(last, Finish(id, succeeded)).store == Marked(last.store, id, StatusAfter(succeeded))
      && (|last.recorded| - 1 - id < MAX_KEPT ==> Holds(last.store, id, false))
  {
    hide Apply, Inv, Resolve, Run, Prune;
    var s := Run(INIT, before);
    EveryRunKeepsInv(before);
    CommitTracks(s, request);
    var e := Resolve(Prune(s.store, request.now), request).entry;
    RunTracks(Apply(s, Confirm(request)), between, e, request.now + DAY_MS);
    OwnCodeMarksOwn(Run(Apply(s, Confirm(request)), between), e.id, succeeded);
  }

  // ---------- the cap is sharp ----------

  const COMMAND_TIMEOUT_MS: int := 120_000
  const CONFIRM_TTL_MS: int := 15 * 60 * 1000
  // the first letters of the alphabet of the codes
  const LETTERS := "ABCDEFGH"

  const REUSED := "AAAAAA"
  const WHO := "@a:b"

  /** Fifty codes that differ from each other and from the one given out twice. */
  function OtherCode(j: nat): string
    requires j < MAX_KEPT
  {
    "BAAA" + [LETTERS[j / 8], LETTERS[j % 8]]
  }

  function CodeOf(j: nat): string
    requires j <= MAX_KEPT
  {
    if j < MAX_KEPT then OtherCode(j) else REUSED
  }

  const FIRST := Proposal("first", WHO, None, {WHO}, 0, CONFIRM_TTL_MS, [REUSED])
  const CONFIRMATION := Request(REUSED, Some(WHO), None, {WHO}, 1)

  /** The j-th proposal made while the first command runs. */
  function Later(j: nat): Proposal
    requires j <= MAX_KEPT
  {
    Proposal("later", WHO, None, {WHO}, 2 + j, CONFIRM_TTL_MS, [CodeOf(j)])
  }

  function LaterSteps(n: nat): (r: seq<Step>)
    requires n <= MAX_KEPT + 1
    ensures |r| == n
  {
    if n == 0 then [] else LaterSteps(n - 1) + [Propose(Later(n - 1))]
  }

  /** One change is proposed and confirmed, 51 more are proposed while its command runs, the last one with the code that
      the 50 before it have freed, and then the command ends. */
  function ReusingRun(): seq<Step> {
    START + LaterSteps(MAX_KEPT + 1) + [Finish(0, true)]
  }

  function FirstEntry(): Entry {
    Entry(0, REUSED, "first", WHO, None, 0, CONFIRM_TTL_MS, Pending)
  }

  function LaterEntry(j: nat): Entry
    requires j <= MAX_KEPT
  {
    Entry(j + 1, CodeOf(j), "later", WHO, None, 2 + j, 2 + j + CONFIRM_TTL_MS, Pending)
  }

  function LaterEntries(n: nat): (r: seq<Entry>)
    requires n <= MAX_KEPT + 1
    ensures |r| == n && forall j :: 0 <= j < n ==> r[j] == LaterEntry(j)
  {
    if n == 0 then [] else LaterEntries(n - 1) + [LaterEntry(n - 1)]
  }

  function AfterLater(n: nat): State
    requires n <= MAX_KEPT
  {
    State([FirstEntry().(status := Applying)] + LaterEntries(n), [FirstEntry()] + LaterEntries(n),
      [Confirmation(0, CONFIRMATION)], {0})
  }

  lemma CodesDiffer(i: nat, j: nat)
    requires i < j <= MAX_KEPT
    ensures CodeOf(i) != CodeOf(j)
  {
    assert CodeOf(i)[0] == 'B' && CodeOf(i)[4] == LETTERS[i / 8] && CodeOf(i)[5] == LETTERS[i % 8];
    if j < MAX_KEPT {
      assert CodeOf(j)[4] == LETTERS[j / 8] && CodeOf(j)[5] == LETTERS[j % 8];
      LettersDiffer(i / 8, j / 8);
      LettersDiffer(i % 8, j % 8);
    } else {
      assert CodeOf(j)[0] == 'A';
    }
  }

  lemma LettersDiffer(i: nat, j: nat)
    requires i < 8 && j < 8
    ensures LETTERS[i] == LETTERS[j] ==> i == j
  {
  }

  lemma {:induction false} AllLive(entries: seq<Entry>, now: int)
    requires forall i :: 0 <= i < |entries| ==> entries[i].expiresAt + DAY_MS > now
    ensures Live(entries, now) == entries
  {
    if entries != [] {
      AllLive(entries[..|entries| - 1], now);
    }
  }

  lemma OneDraw(s: State, p: Proposal)
    requires p.requester in p.operators && |p.draws| == 1 && !HasCode(Prune(s.store, p.now), p.draws[0])
    ensures var e := Entry(|s.recorded|, p.draws[0], p.change, p.requester, p.account, p.now, p.now + p.ttl, Pending);
      Apply(s, Propose(p)) == s.(store := Prune(s.store, p.now) + [e], recorded := s.recorded + [e])
  {
    hide Prune;
  }

  lemma FirstTwoSteps()
    ensures Apply(Apply(INIT, Propose(FIRST)), Confirm(CONFIRMATION)) == AfterLater(0)
  {
    var e := FirstEntry();
    OneDraw(INIT, FIRST);
    var s := State([e], [e], [], {});
    assert Apply(INIT, Propose(FIRST)) == s;
    AllLive([e], 1);
    assert Prune([e], 1) == [e];
    assert [e][0].code == REUSED && Find([e], REUSED) == Some(e);
    assert Commit([e], 0) == [e.(status := Applying)];
  }

  lemma NothingPruned(n: nat)
    requires n < MAX_KEPT
    ensures Prune(AfterLater(n).store, 2 + n) == AfterLater(n).store
  {
    hide CodeOf;
    AllLive(AfterLater(n).store, 2 + n);
  }

  lemma LaterCodeIsFree(n: nat)
    requires n < MAX_KEPT
    ensures !HasCode(AfterLater(n).store, CodeOf(n))
  {
    hide HasCode, OtherCode;
    var store := AfterLater(n).store;
    forall i | 0 <= i < |store| ensures store[i].code != CodeOf(n) {
      if i == 0 {
        CodesDiffer(n, MAX_KEPT);
      } else {
        CodesDiffer(i - 1, n);
      }
    }
    NoSuchCode(store, CodeOf(n));
  }

  lemma LaterStep(n: nat)
    requires n < MAX_KEPT
    ensures Apply(AfterLater(n), Propose(Later(n))) == AfterLater(n + 1)
  {
    hide Apply, HasCode, CodeOf, Prune;
    var s := AfterLater(n);
    NothingPruned(n);
    LaterCodeIsFree(n);
    OneDraw(s, Later(n));
    assert s.store + [LaterEntry(n)] == AfterLater(n + 1).store;
    assert s.recorded + [LaterEntry(n)] == AfterLater(n + 1).recorded;
  }

  lemma NoSuchCode(entries: seq<Entry>, code: string)
    requires forall i :: 0 <= i < |entries| ==> entries[i].code != code
    ensures !HasCode(entries, code)
  {
  }

  /** The state when the last proposal has taken the code again. */
  function AfterLast(): State {
    State(LaterEntries(MAX_KEPT + 1), [FirstEntry()] + LaterEntries(MAX_KEPT + 1), [Confirmation(0, CONFIRMATION)], {0})
  }

  lemma LastStep()
    ensures Apply(AfterLater(MAX_KEPT), Propose(Later(MAX_KEPT))) == AfterLast()
  {
    hide HasCode, OtherCode;
    var s := AfterLater(MAX_KEPT);
    AllLive(s.store, 2 + MAX_KEPT);
    assert Prune(s.store, 2 + MAX_KEPT) == LaterEntries(MAX_KEPT);
    forall i | 0 <= i < MAX_KEPT ensures LaterEntries(MAX_KEPT)[i].code != REUSED {
      CodesDiffer(i, MAX_KEPT);
    }
    NoSuchCode(LaterEntries(MAX_KEPT), REUSED);
    OneDraw(s, Later(MAX_KEPT));
  }

  lemma RunSnoc(s: State, steps: seq<Step>, step: Step)
    ensures Run(s, steps + [step]) == Apply(Run(s, steps), step)
  {
    hide Apply;
    assert (steps + [step])[..|steps|] == steps;
  }

  const START := [Propose(FIRST), Confirm(CONFIRMATION)]

  lemma {:induction false} RunLater(n: nat)
    requires n <= MAX_KEPT
    ensures Run(INIT, START + LaterSteps(n)) == AfterLater(n)
  {
    hide Apply, AfterLater, Run;
    if n == 0 {
      RunSnoc(INIT, [], Propose(FIRST));
      RunSnoc(INIT, [Propose(FIRST)], Confirm(CONFIRMATION));
      assert [] + [Propose(FIRST)] == [Propose(FIRST)] && [Propose(FIRST)] + [Confirm(CONFIRMATION)] == START + LaterSteps(0);
      EmptyRun(INIT);
      FirstTwoSteps();
    } else {
      RunLater(n - 1);
      LaterStep(n - 1);
      RunSnoc(INIT, START + LaterSteps(n - 1), Propose(Later(n - 1)));
      assert START + LaterSteps(n - 1) + [Propose(Later(n - 1))] == START + LaterSteps(n);
    }
  }

  lemma EmptyRun(s: State)
    ensures Run(s, []) == s
  {
  }

  /** Fifty-one later proposals are too many: within the time a command may take, this run marks as applied a change that
      nobody confirmed, and does not mark the one that was. */
  lemma ReusedCodeIsMarked()
    ensures forall j: nat :: j <= MAX_KEPT ==> CONFIRMATION.now < Later(j).now < CONFIRMATION.now + COMMAND_TIMEOUT_MS
    ensures var s := Run(INIT, ReusingRun());
      |s.store| == MAX_KEPT + 1 && s.store[MAX_KEPT] == LaterEntry(MAX_KEPT).(status := Applied)
      && !IsConfirmed(s.confirmations, MAX_KEPT + 1) && !HandledWereConfirmed(s)
      && IsConfirmed(s.confirmations, 0) && OwnsNothing(s.store, 0)
  {
    hide Apply, Run, IsConfirmed, HandledWereConfirmed, OwnsNothing, AfterLater, AfterLast, LaterEntry, CodeOf;
    var n := MAX_KEPT + 1;
    RunLater(MAX_KEPT);
    LastStep();
    RunSnoc(INIT, START + LaterSteps(MAX_KEPT), Propose(Later(MAX_KEPT)));
    assert START + LaterSteps(MAX_KEPT) + [Propose(Later(MAX_KEPT))] == START + LaterSteps(n);
    RunSnoc(INIT, START + LaterSteps(n), Finish(0, true));
    LastFinish();
  }

  predicate OwnsNothing(entries: seq<Entry>, id: nat) {
    forall i :: 0 <= i < |entries| ==> entries[i].id != id
  }

  lemma LastFinish()
    ensures var t := Apply(AfterLast(), Finish(0, true));
      |t.store| == MAX_KEPT + 1 && t.store[MAX_KEPT] == LaterEntry(MAX_KEPT).(status := Applied)
      && !IsConfirmed(t.confirmations, MAX_KEPT + 1) && !HandledWereConfirmed(t)
      && IsConfirmed(t.confirmations, 0) && OwnsNothing(t.store, 0)
  {
    var s, t := AfterLast(), Apply(AfterLast(), Finish(0, true));
    assert s.store[MAX_KEPT].code == REUSED;
    assert t.store[MAX_KEPT] == LaterEntry(MAX_KEPT).(status := Applied);
    assert t.confirmations[0].id == 0;
  }
}
