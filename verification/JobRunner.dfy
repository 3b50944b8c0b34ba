/** Running the steps of a job and publishing what they do. */
module JobRunner {
  import opened Wrappers

  datatype JobState = JobPending | JobRunning | JobSucceeded | JobFailed

  datatype StepState = Pending | Running | Succeeded | Warned | Failed

  datatype ErrorDetail = ErrorDetail(code: string, message: string, retryable: bool)

  datatype Thrown = DetailLike(detail: ErrorDetail) | JsError(message: string) | OtherThrown(text: string)

  /** What a step does when it is run. */
  datatype Ending = Returns(details: Option<string>) | Throws(thrown: Thrown)

  /** A step with the notes it reports while it runs (trimmed) and how it ends. */
  datatype Step = Step(id: string, title: string, softFail: bool, notes: seq<string>, ending: Ending)

  datatype Record = Record(
    id: string,
    title: string,
    state: StepState,
    note: Option<string>,
    error: Option<ErrorDetail>,
    details: Option<string>
  )

  datatype JobView = JobView(state: JobState, currentStepId: Option<string>, steps: seq<Record>)

  datatype Snapshot = Snapshot(job: JobView, error: Option<ErrorDetail>)

  function Normalize(thrown: Thrown): ErrorDetail {
    match thrown
    case DetailLike(detail) => detail
    case JsError(message) => ErrorDetail("INSTALL_STEP_FAILED", message, false)
    case OtherThrown(text) => ErrorDetail("INSTALL_STEP_FAILED", text, false)
  }

  // ---------- what a run publishes ----------

  function InitialRecords(steps: seq<Step>): (r: seq<Record>)
    ensures |r| == |steps|
    ensures forall i :: 0 <= i < |r| ==> r[i] == Record(steps[i].id, steps[i].title, Pending, None, None, None)
  {
    seq(|steps|, i requires 0 <= i < |steps| => Record(steps[i].id, steps[i].title, Pending, None, None, None))
  }

  /** The first record with the id. */
  function IndexOf(records: seq<Record>, id: string): (r: nat)
    ensures r <= |records|
    ensures r < |records| ==> records[r].id == id
    ensures forall i :: 0 <= i < r ==> records[i].id != id
  {
    if records == [] || records[0].id == id then 0 else IndexOf(records[1..], id) + 1
  }

  /** A run so far. The error is there once the job has failed. */
  datatype Progress = Progress(job: JobView, published: seq<Snapshot>, error: Option<ErrorDetail>) {
    function Publish(): Progress {
      this.(published := published + [Snapshot(job, error)])
    }

    function SetRecord(i: nat, record: Record): Progress
      requires i < |job.steps|
    {
      this.(job := job.(steps := job.steps[i := record]))
    }
  }

  predicate SameIds(a: seq<Record>, b: seq<Record>) {
    |a| == |b| && forall i :: 0 <= i < |a| ==> a[i].id == b[i].id
  }

  function AfterNotes(p: Progress, i: nat, notes: seq<string>): (r: Progress)
    requires i < |p.job.steps|
    ensures SameIds(r.job.steps, p.job.steps)
  {
    if notes == [] then p
    else
      var k := |notes| - 1;
      var q := AfterNotes(p, i, notes[..k]);
      if notes[k] == "" then q
      else q.SetRecord(i, q.job.steps[i].(note := Some(notes[k]))).Publish()
  }

  function Begin(p: Progress, i: nat, id: string): (r: Progress)
    requires i < |p.job.steps|
    ensures SameIds(r.job.steps, p.job.steps)
  {
    var q := p.SetRecord(i, p.job.steps[i].(state := Running));
    q.(job := q.job.(currentStepId := Some(id))).Publish()
  }

  function End(p: Progress, i: nat, step: Step): (r: Progress)
    requires i < |p.job.steps|
    ensures SameIds(r.job.steps, p.job.steps)
  {
    var record := p.job.steps[i];
    match step.ending
    case Returns(details) =>
      p.SetRecord(i, record.(state := Succeeded, details := if details.Some? then details else record.details)).Publish()
    case Throws(thrown) =>
      var error := Normalize(thrown);
      if step.softFail then
        p.SetRecord(i, record.(state := Warned, error := Some(error))).Publish()
      else
        var q := p.SetRecord(i, record.(state := Failed, error := Some(error)));
        q.(job := q.job.(state := JobFailed), error := Some(error)).Publish()
  }

  predicate Lists(records: seq<Record>, steps: seq<Step>) {
    |records| == |steps| && forall i :: 0 <= i < |records| ==> records[i].id == steps[i].id
  }

  function RunStep(p: Progress, step: Step): (r: Progress)
    requires IndexOf(p.job.steps, step.id) < |p.job.steps|
    ensures SameIds(r.job.steps, p.job.steps)
  {
    var i := IndexOf(p.job.steps, step.id);
    End(AfterNotes(Begin(p, i, step.id), i, step.notes), i, step)
  }

  function Start(steps: seq<Step>): Progress {
    var p := Progress(JobView(JobPending, None, InitialRecords(steps)), [], None).Publish();
    p.(job := p.job.(state := JobRunning)).Publish()
  }

  /** After the first k steps; a failed job stays as it is. */
  function AfterSteps(steps: seq<Step>, k: nat): (r: Progress)
    requires k <= |steps|
    ensures Lists(r.job.steps, steps)
  {
    if k == 0 then Start(steps)
    else
      var p := AfterSteps(steps, k - 1);
      if p.error.Some? then p
      else
        assert p.job.steps[k - 1].id == steps[k - 1].id;
        RunStep(p, steps[k - 1])
  }

  function Finished(steps: seq<Step>): Progress {
    var p := AfterSteps(steps, |steps|);
    if p.error.Some? then p else p.(job := p.job.(state := JobSucceeded, currentStepId := None)).Publish()
  }

  // ---------- what every snapshot shows ----------

  predicate IsDone(record: Record, step: Step) {
    record.state.Succeeded? || (record.state.Warned? && step.softFail)
  }

  /** The steps before m are done, those after it have not begun. */
  predicate Shape(job: JobView, steps: seq<Step>, m: nat) {
    |job.steps| == |steps| && m <= |steps|
    && (forall i :: 0 <= i < m ==> IsDone(job.steps[i], steps[i]))
    && (forall i :: m < i < |steps| ==> job.steps[i].state.Pending?)
  }

  /** The step at m is waiting, running, or the one that failed the job, and the job says so. */
  predicate Honest(s: Snapshot, steps: seq<Step>, m: nat) {
    Shape(s.job, steps, m)
    && (s.error.Some? <==> s.job.state.JobFailed?)
    && match s.job.state
      case JobPending => m == 0 && (m < |steps| ==> s.job.steps[m].state.Pending?)
      case JobRunning =>
        m == |steps| || s.job.steps[m].state.Pending?
        || (s.job.steps[m].state.Running? && s.job.currentStepId == Some(steps[m].id))
      case JobFailed =>
        m < |steps| && s.job.steps[m].state.Failed? && !steps[m].softFail && s.job.currentStepId == Some(steps[m].id)
        && s.job.steps[m].error == s.error
      case JobSucceeded => m == |steps| && s.job.currentStepId.None?
  }

  ghost predicate IsHonest(s: Snapshot, steps: seq<Step>) {
    exists m: nat :: Honest(s, steps, m)
  }

  ghost predicate AllHonest(published: seq<Snapshot>, steps: seq<Step>) {
    forall i :: 0 <= i < |published| ==> IsHonest(published[i], steps)
  }

  predicate Passes(step: Step) {
    step.ending.Returns? || step.softFail
  }

  /** The job ended, succeeded exactly if no step failed it, and otherwise failed at the first that did. */
  ghost predicate EndsRight(p: Progress, steps: seq<Step>) {
    p.published != [] && p.published[|p.published| - 1] == Snapshot(p.job, p.error)
    && if forall i :: 0 <= i < |steps| ==> Passes(steps[i]) then
        p.job.state.JobSucceeded? && |p.job.steps| == |steps|
        && forall i :: 0 <= i < |steps| ==> IsDone(p.job.steps[i], steps[i])
      else
        exists m: nat :: m < |steps| && !Passes(steps[m]) && (forall i :: 0 <= i < m ==> Passes(steps[i]))
          && p.job.state.JobFailed? && p.job.currentStepId == Some(steps[m].id)
          && p.error == Some(Normalize(steps[m].ending.thrown))
          && Honest(Snapshot(p.job, p.error), steps, m)
  }

  predicate DistinctIds(steps: seq<Step>) {
    forall i, j :: 0 <= i < j < |steps| ==> steps[i].id != steps[j].id
  }

  /** Between steps: the first k are done and the rest have not begun. */
  ghost predicate Between(p: Progress, steps: seq<Step>, k: nat) {
    k <= |steps| && p.error.None? && p.job.state.JobRunning? && Lists(p.job.steps, steps)
    && Shape(p.job, steps, k) && (k < |steps| ==> p.job.steps[k].state.Pending?)
    && AllHonest(p.published, steps) && p.published != []
  }

  ghost predicate During(p: Progress, steps: seq<Step>, k: nat) {
    k < |steps| && p.error.None? && p.job.state.JobRunning? && Lists(p.job.steps, steps)
    && Shape(p.job, steps, k) && p.job.steps[k].state.Running? && p.job.currentStepId == Some(steps[k].id)
    && AllHonest(p.published, steps)
  }

  ghost predicate FailedAt(p: Progress, steps: seq<Step>, m: nat) {
    m < |steps| && steps[m].ending.Throws? && p.error == Some(Normalize(steps[m].ending.thrown))
    && Honest(Snapshot(p.job, p.error), steps, m) && p.job.state.JobFailed?
    && AllHonest(p.published, steps) && p.published != []
    && p.published[|p.published| - 1] == Snapshot(p.job, p.error)
  }

  lemma PublishHonest(p: Progress, steps: seq<Step>, m: nat)
    requires AllHonest(p.published, steps) && Honest(Snapshot(p.job, p.error), steps, m)
    ensures AllHonest(p.Publish().published, steps)
  {
    hide Honest;
    var s := Snapshot(p.job, p.error);
    assert IsHonest(s, steps);
  }

  lemma BeginStep(p: Progress, steps: seq<Step>, k: nat)
    requires Between(p, steps, k) && k < |steps|
    ensures During(Begin(p, k, steps[k].id), steps, k)
  {
    hide AllHonest;
    var q := p.SetRecord(k, p.job.steps[k].(state := Running));
    PublishHonest(q.(job := q.job.(currentStepId := Some(steps[k].id))), steps, k);
  }

  lemma {:induction false} NotesDuring(p: Progress, steps: seq<Step>, k: nat, notes: seq<string>)
    requires During(p, steps, k)
    ensures During(AfterNotes(p, k, notes), steps, k)
    decreases |notes|
  {
    hide AllHonest;
    if notes != [] {
      var n := |notes| - 1;
      NotesDuring(p, steps, k, notes[..n]);
      var q := AfterNotes(p, k, notes[..n]);
      PublishHonest(q.SetRecord(k, q.job.steps[k].(note := Some(notes[n]))), steps, k);
    }
  }

  lemma EndStep(p: Progress, steps: seq<Step>, k: nat)
    requires During(p, steps, k)
    ensures Passes(steps[k]) ==> Between(End(p, k, steps[k]), steps, k + 1)
    ensures !Passes(steps[k]) ==> FailedAt(End(p, k, steps[k]), steps, k)
  {
    hide AllHonest, Normalize;
    var record := p.job.steps[k];
    match steps[k].ending
    case Returns(details) =>
      var q := p.SetRecord(k, record.(state := Succeeded, details := if details.Some? then details else record.details));
      PublishHonest(q, steps, k + 1);
    case Throws(thrown) =>
      var error := Normalize(thrown);
      if steps[k].softFail {
        PublishHonest(p.SetRecord(k, record.(state := Warned, error := Some(error))), steps, k + 1);
      } else {
        var q := p.SetRecord(k, record.(state := Failed, error := Some(error)));
        PublishHonest(q.(job := q.job.(state := JobFailed), error := Some(error)), steps, k);
      }
  }

  lemma RunStepShape(p: Progress, steps: seq<Step>, k: nat)
    requires Between(p, steps, k) && k < |steps| && DistinctIds(steps)
    ensures IndexOf(p.job.steps, steps[k].id) == k
    ensures Passes(steps[k]) ==> Between(RunStep(p, steps[k]), steps, k + 1)
    ensures !Passes(steps[k]) ==> FailedAt(RunStep(p, steps[k]), steps, k)
  {
    assert p.job.steps[k].id == steps[k].id;
    hide Between, During, FailedAt, Begin, End, AfterNotes;
    BeginStep(p, steps, k);
    var q := Begin(p, k, steps[k].id);
    NotesDuring(q, steps, k, steps[k].notes);
    EndStep(AfterNotes(q, k, steps[k].notes), steps, k);
  }

  lemma StartBetween(steps: seq<Step>)
    ensures Between(Start(steps), steps, 0)
  {
    var p := Progress(JobView(JobPending, None, InitialRecords(steps)), [], None);
    PublishHonest(p, steps, 0);
    var q := p.Publish();
    PublishHonest(q.(job := q.job.(state := JobRunning)), steps, 0);
  }

  lemma {:induction false} StepsShape(steps: seq<Step>, k: nat)
    requires DistinctIds(steps) && k <= |steps|
    ensures (forall i :: 0 <= i < k ==> Passes(steps[i])) ==> Between(AfterSteps(steps, k), steps, k)
    ensures !(forall i :: 0 <= i < k ==> Passes(steps[i])) ==>
      exists m: nat :: m < k && !Passes(steps[m]) && (forall i :: 0 <= i < m ==> Passes(steps[i]))
        && FailedAt(AfterSteps(steps, k), steps, m)
  {
    hide RunStep, Passes, Honest, AllHonest, Shape, Start;
    if k == 0 {
      StartBetween(steps);
    } else {
      StepsShape(steps, k - 1);
      if forall i :: 0 <= i < k - 1 ==> Passes(steps[i]) {
        RunStepShape(AfterSteps(steps, k - 1), steps, k - 1);
      } else {
        var m: nat :| m < k - 1 && !Passes(steps[m]) && (forall i :: 0 <= i < m ==> Passes(steps[i]))
          && FailedAt(AfterSteps(steps, k - 1), steps, m);
        assert AfterSteps(steps, k) == AfterSteps(steps, k - 1);
      }
    }
  }

  /** With distinct step ids every snapshot is honest and the job ends right. */
  lemma RunsAreHonest(steps: seq<Step>)
    requires DistinctIds(steps)
    ensures AllHonest(Finished(steps).published, steps) && EndsRight(Finished(steps), steps)
  {
    hide AfterSteps, Passes, AllHonest, Normalize;
    StepsShape(steps, |steps|);
    var p := AfterSteps(steps, |steps|);
    if forall i :: 0 <= i < |steps| ==> Passes(steps[i]) {
      PublishHonest(p.(job := p.job.(state := JobSucceeded, currentStepId := None)), steps, |steps|);
    } else {
      var m: nat :| m < |steps| && !Passes(steps[m]) && (forall i :: 0 <= i < m ==> Passes(steps[i]))
        && FailedAt(p, steps, m);
      assert Finished(steps) == p;
    }
  }

  // ---------- steps that share an id ----------

  lemma {:induction false} NotesKeepOthers(p: Progress, i: nat, notes: seq<string>, j: nat)
    requires i < |p.job.steps| && j < |p.job.steps| && i != j
    ensures AfterNotes(p, i, notes).job.steps[j] == p.job.steps[j]
  {
    if notes != [] {
      NotesKeepOthers(p, i, notes[..|notes| - 1], j);
    }
  }

  /** The second of two steps with one id never gets a record of its own. */
  lemma {:induction false} SecondStaysPending(steps: seq<Step>, i: nat, j: nat, k: nat)
    requires i < j < |steps| && steps[i].id == steps[j].id && k <= |steps|
    ensures AfterSteps(steps, k).job.steps[j].state.Pending?
  {
    hide RunStep, Start;
    if k == 0 {
      StartsPending(steps, j);
    } else {
      SecondStaysPending(steps, i, j, k - 1);
      var p := AfterSteps(steps, k - 1);
      if p.error.None? {
        assert p.job.steps[i].id == p.job.steps[j].id && p.job.steps[k - 1].id == steps[k - 1].id;
        assert IndexOf(p.job.steps, steps[k - 1].id) != j;
        StepKeepsOthers(p, steps[k - 1], j);
      }
    }
  }

  lemma StartsPending(steps: seq<Step>, j: nat)
    requires j < |steps|
    ensures Start(steps).job.steps[j].state.Pending?
  {
  }

  lemma StepKeepsOthers(p: Progress, step: Step, j: nat)
    requires var at := IndexOf(p.job.steps, step.id); at < |p.job.steps| && j < |p.job.steps| && at != j
    ensures RunStep(p, step).job.steps[j] == p.job.steps[j]
  {
    var at := IndexOf(p.job.steps, step.id);
    NotesKeepOthers(Begin(p, at, step.id), at, step.notes, j);
  }

  lemma {:induction false} NotesKeepGoing(p: Progress, i: nat, notes: seq<string>)
    requires i < |p.job.steps|
    ensures AfterNotes(p, i, notes).error == p.error
  {
    if notes != [] {
      NotesKeepGoing(p, i, notes[..|notes| - 1]);
    }
  }

  lemma {:induction false} PassingStepsGoOn(steps: seq<Step>, k: nat)
    requires k <= |steps| && forall i :: 0 <= i < |steps| ==> Passes(steps[i])
    ensures AfterSteps(steps, k).error.None?
  {
    hide RunStep;
    if k > 0 {
      PassingStepsGoOn(steps, k - 1);
      var p := AfterSteps(steps, k - 1);
      assert p.job.steps[k - 1].id == steps[k - 1].id;
      PassingStepGoesOn(p, steps[k - 1]);
    }
  }

  lemma PassingStepGoesOn(p: Progress, step: Step)
    requires IndexOf(p.job.steps, step.id) < |p.job.steps| && p.error.None? && Passes(step)
    ensures RunStep(p, step).error.None?
  {
    hide IndexOf;
    var at := IndexOf(p.job.steps, step.id);
    NotesKeepGoing(Begin(p, at, step.id), at, step.notes);
  }

  ghost predicate HasIds(steps: seq<Step>, ids: seq<string>) {
    |steps| == |ids| && forall i :: 0 <= i < |ids| ==> steps[i].id == ids[i]
  }

  ghost predicate RunsRight(steps: seq<Step>) {
    AllHonest(Finished(steps).published, steps) && EndsRight(Finished(steps), steps)
  }

  predicate DistinctStrings(ids: seq<string>) {
    forall i, j :: 0 <= i < j < |ids| ==> ids[i] != ids[j]
  }

  /** Whatever the steps do, the runner reports it right exactly when no two steps share an id. */
  lemma RunsRightIffDistinctIds(ids: seq<string>)
    ensures (forall steps :: HasIds(steps, ids) ==> RunsRight(steps)) <==> DistinctStrings(ids)
  {
    if DistinctStrings(ids) {
      forall steps | HasIds(steps, ids) ensures RunsRight(steps) {
        assert DistinctIds(steps);
        RunsAreHonest(steps);
      }
    } else {
      var i, j :| 0 <= i < j < |ids| && ids[i] == ids[j];
      var steps := seq(|ids|, k requires 0 <= k < |ids| => Step(ids[k], "", false, [], Returns(None)));
      assert HasIds(steps, ids);
      SharedIdRunsWrong(steps, i, j);
    }
  }

  lemma SharedIdRunsWrong(steps: seq<Step>, i: nat, j: nat)
    requires i < j < |steps| && steps[i].id == steps[j].id && forall k :: 0 <= k < |steps| ==> Passes(steps[k])
    ensures !RunsRight(steps)
  {
    hide AfterSteps, AllHonest;
    SecondStaysPending(steps, i, j, |steps|);
    PassingStepsGoOn(steps, |steps|);
    assert Finished(steps).job.steps == AfterSteps(steps, |steps|).job.steps;
    assert !IsDone(Finished(steps).job.steps[j], steps[j]);
  }

  // ---------- the runner ----------

  /** The job record the runner updates in place, and what its observer was given. */
  class Job {
    var state: JobState
    var currentStepId: Option<string>
    var steps: seq<Record>
    var published: seq<Snapshot>

    constructor (steps: seq<Step>)
      ensures AsProgress(None) == Progress(JobView(JobPending, None, InitialRecords(steps)), [], None)
    {
      this.state, this.currentStepId, this.steps, this.published := JobPending, None, InitialRecords(steps), [];
    }

    function View(): JobView
      reads this
    {
      JobView(state, currentStepId, steps)
    }

    function AsProgress(error: Option<ErrorDetail>): Progress
      reads this
    {
      Progress(View(), published, error)
    }

    method Notify(error: Option<ErrorDetail>)
      modifies this`published
      ensures AsProgress(error) == old(AsProgress(error)).Publish()
    {
      published := published + [Snapshot(View(), error)];
    }

    /** Runs one step; the error is the one that ends the job. */
    method RunOne(step: Step) returns (error: Option<ErrorDetail>)
      requires IndexOf(steps, step.id) < |steps|
      modifies this
      ensures AsProgress(error) == RunStep(old(AsProgress(None)), step)
    {
      hide IndexOf, End;
      var current := IndexOf(steps, step.id);
      steps := steps[current := steps[current].(state := Running)];
      currentStepId := Some(step.id);
      Notify(None);
      ghost var begun := AsProgress(None);
      assert begun == Begin(old(AsProgress(None)), current, step.id);
      for n := 0 to |step.notes|
        invariant |steps| == old(|steps|)
        invariant AsProgress(None) == AfterNotes(begun, current, step.notes[..n])
      {
        assert step.notes[..n + 1][..n] == step.notes[..n];
        if step.notes[n] == "" {
          continue;
        }
        steps := steps[current := steps[current].(note := Some(step.notes[n]))];
        Notify(None);
      }
      assert step.notes[..|step.notes|] == step.notes;
      error := EndOne(current, step);
    }

    method EndOne(current: nat, step: Step) returns (error: Option<ErrorDetail>)
      requires current < |steps|
      modifies this
      ensures AsProgress(error) == End(old(AsProgress(None)), current, step)
    {
      match step.ending {
        case Throws(thrown) =>
          var caught := Normalize(thrown);
          if step.softFail {
            steps := steps[current := steps[current].(state := Warned, error := Some(caught))];
            Notify(None);
            return None;
          }
          steps := steps[current := steps[current].(state := Failed, error := Some(caught))];
          state := JobFailed;
          Notify(Some(caught));
          return Some(caught);
        case Returns(details) =>
          ghost var before := steps;
          steps := steps[current := steps[current].(state := Succeeded)];
          if details.Some? {
            steps := steps[current := steps[current].(details := details)];
          }
          assert steps == before[current := before[current].(state := Succeeded,
            details := if details.Some? then details else before[current].details)];
          Notify(None);
          return None;
      }
    }

    method Run(defined: seq<Step>) returns (error: Option<ErrorDetail>)
      requires AsProgress(None) == Progress(JobView(JobPending, None, InitialRecords(defined)), [], None)
      modifies this
      ensures AsProgress(error) == Finished(defined)
    {
      hide RunStep, AfterSteps, InitialRecords;
      error := None;
      StartIs(defined);
      Notify(None);
      state := JobRunning;
      Notify(None);
      for k := 0 to |defined|
        invariant error.None? && AsProgress(None) == AfterSteps(defined, k)
      {
        assert steps[k].id == defined[k].id;
        NextStep(defined, k);
        error := RunOne(defined[k]);
        if error.Some? {
          FailedStays(defined, k + 1, |defined|);
          return;
        }
      }
      state := JobSucceeded;
      currentStepId := None;
      Notify(None);
    }
  }

  lemma StartIs(steps: seq<Step>)
    ensures AfterSteps(steps, 0) == Start(steps)
  {
    hide Start;
  }

  lemma NextStep(steps: seq<Step>, k: nat)
    requires k < |steps| && AfterSteps(steps, k).error.None?
    ensures AfterSteps(steps, k).job.steps[k].id == steps[k].id
    ensures AfterSteps(steps, k + 1) == RunStep(AfterSteps(steps, k), steps[k])
  {
    hide RunStep;
  }

  lemma {:induction false} FailedStays(steps: seq<Step>, k: nat, n: nat)
    requires k <= n <= |steps| && AfterSteps(steps, k).error.Some?
    ensures AfterSteps(steps, n) == AfterSteps(steps, k)
    decreases n
  {
    hide RunStep;
    if k < n {
      FailedStays(steps, k, n - 1);
    }
  }
}
