/** The exec-job protocol: one runVMExecJob and any number of CancelVMExecJob calls race through whole-row
    writes, the cancel map and a cancellable context. A step is one method of the store, one access to the map
    or one call of cancel. */
module ExecJob {
  datatype Status = Queued | InProgress | Succeeded | Failed | Canceled

  datatype JobError = NoError | CanceledError | TimedOutError | ExitError(code: int) | RunError

  datatype Job = Job(
    status: Status, exitCode: int, timedOut: bool, error: JobError, started: bool, completed: bool, stdout: string)

  const QUEUED_JOB := Job(Queued, -1, false, NoError, false, false, "")

  /** What ExecuteVMCommand returns: an error, or a result. */
  datatype Outcome = RunFailed | Ran(exitCode: int, timedOut: bool, stdout: string)

  datatype Runner =
    | Register
    | FirstRead
    | WriteRunning(job: Job)
    | Execute(job: Job)
    | Reread(job: Job, outcome: Outcome)
    | WriteFinal(job: Job)
    | ReleaseContext
    | ReleaseEntry
    | Finished

  datatype Canceller =
    | CancelRead
    | Lookup(job: Job)
    | CallCancel(job: Job, found: bool)
    | WriteCanceled(job: Job)
    | CancelDone

  /** `entry` says whether the cancel map holds the job, `ctxCanceled` whether the runner's context ended. */
  datatype World = World(row: Job, entry: bool, ctxCanceled: bool, runner: Runner, cancellers: map<nat, Canceller>)

  const INITIAL_WORLD := World(QUEUED_JOB, false, false, Register, map[])

  /** `lucky` decides whether a statement under an ended context still takes effect. */
  datatype Action = Run(lucky: bool, outcome: Outcome) | Cancel(k: nat)

  function FinalJob(job: Job, o: Outcome): Job {
    match o
    case RunFailed => job.(completed := true, status := Failed, error := RunError)
    case Ran(code, timedOut, stdout) =>
      var j := job.(stdout := stdout, exitCode := code, timedOut := timedOut, completed := true);
      if timedOut then j.(status := Failed, error := TimedOutError)
      else if code != 0 then j.(status := Failed, error := ExitError(code))
      else j.(status := Succeeded, error := NoError)
  }

  function RunStep(w: World, lucky: bool, outcome: Outcome): World {
    var effective := !w.ctxCanceled || lucky;
    match w.runner
    case Register => w.(entry := true, runner := FirstRead)
    case FirstRead =>
      if !effective || w.row.status == Canceled then w.(runner := ReleaseContext)
      else w.(runner := WriteRunning(w.row.(status := InProgress, started := true)))
    case WriteRunning(job) =>
      w.(row := if effective then job else w.row, runner := Execute(job))
    case Execute(job) => w.(runner := Reread(job, outcome))
    case Reread(job, o) =>
      w.(runner := if w.row.status == Canceled then ReleaseContext else WriteFinal(FinalJob(job, o)))
    case WriteFinal(job) => w.(row := job, runner := ReleaseContext)
    case ReleaseContext => w.(ctxCanceled := true, runner := ReleaseEntry)
    case ReleaseEntry => w.(entry := false, runner := Finished)
    case Finished => w
  }

  predicate Terminal(s: Status) {
    s == Succeeded || s == Failed || s == Canceled
  }

  /** A canceller's step; a number not seen before is a new call. */
  function CancelStep(w: World, k: nat): World {
    if k !in w.cancellers then w.(cancellers := w.cancellers[k := CancelRead])
    else match w.cancellers[k]
      case CancelRead =>
        w.(cancellers := w.cancellers[k := if Terminal(w.row.status) then CancelDone else Lookup(w.row)])
      case Lookup(job) => w.(cancellers := w.cancellers[k := CallCancel(job, w.entry)])
      case CallCancel(job, found) =>
        w.(ctxCanceled := w.ctxCanceled || found, cancellers := w.cancellers[k := WriteCanceled(job)])
      case WriteCanceled(job) =>
        w.(row := job.(status := Canceled, error := CanceledError, completed := true),
           cancellers := w.cancellers[k := CancelDone])
      case CancelDone => w
  }

  function Step(w: World, a: Action): World {
    match a
    case Run(lucky, outcome) => RunStep(w, lucky, outcome)
    case Cancel(k) => CancelStep(w, k)
  }

  function Interleave(w: World, actions: seq<Action>): World
    decreases |actions|
  {
    if actions == [] then w else Interleave(Step(w, actions[0]), actions[1..])
  }

  // ---------------------------------------------------------------------------------------------
  // Invariants

  predicate CancelPending(w: World) {
    exists k :: k in w.cancellers && w.cancellers[k].WriteCanceled?
  }

  predicate Leaving(r: Runner) {
    r.ReleaseContext? || r.ReleaseEntry? || r.Finished?
  }

  /** A row marked succeeded is a clean, finished run. */
  predicate HonestSuccess(j: Job) {
    j.status == Succeeded ==> j.exitCode == 0 && !j.timedOut && j.error == NoError && j.completed
  }

  predicate Good(w: World) {
    && HonestSuccess(w.row)
    && (w.runner.WriteFinal? ==>
          (w.runner.job.status == Succeeded || w.runner.job.status == Failed) && HonestSuccess(w.runner.job))
    && (w.runner.WriteRunning? || w.runner.Execute? || w.runner.Reread? ==> w.runner.job.status == InProgress)
    && (w.entry <==> !w.runner.Register? && !w.runner.Finished?)
    && (w.runner.Register? ==> !w.ctxCanceled)
    && (w.runner.Register? ==> forall k :: k in w.cancellers && w.cancellers[k].CallCancel? ==> !w.cancellers[k].found)
    && (w.runner.FirstRead? && w.ctxCanceled ==> CancelPending(w) || w.row.status == Canceled)
    && (Leaving(w.runner) ==> CancelPending(w) || Terminal(w.row.status))
  }

  lemma CancelStepGood(w: World, k: nat)
    requires Good(w)
    ensures Good(CancelStep(w, k))
  {
    var z := CancelStep(w, k);
    if k in w.cancellers && w.cancellers[k].CallCancel? {
      assert z.cancellers[k].WriteCanceled?;
    }
    if x :| x in w.cancellers && w.cancellers[x].WriteCanceled? && x != k {
      assert z.cancellers[x].WriteCanceled?;
    }
  }

  lemma StepGood(w: World, a: Action)
    requires Good(w)
    ensures Good(Step(w, a))
  {
    if a.Cancel? {
      CancelStepGood(w, a.k);
    } else {
      var z := RunStep(w, a.lucky, a.outcome);
      assert CancelPending(w) ==> CancelPending(z);
    }
  }

  lemma {:induction false} InterleaveGood(w: World, actions: seq<Action>)
    requires Good(w)
    ensures Good(Interleave(w, actions))
    decreases |actions|
  {
    if actions == [] {
    } else {
      StepGood(w, actions[0]);
      InterleaveGood(Step(w, actions[0]), actions[1..]);
    }
  }

  // ---------------------------------------------------------------------------------------------
  // Results

  predicate AllDone(w: World) {
    w.runner.Finished? && forall k :: k in w.cancellers ==> w.cancellers[k].CancelDone?
  }

  /** Once all calls finish the status is final, and the cancel map has no entry for the job. */
  lemma FinalStatus(actions: seq<Action>)
    requires AllDone(Interleave(INITIAL_WORLD, actions))
    ensures Terminal(Interleave(INITIAL_WORLD, actions).row.status) && !Interleave(INITIAL_WORLD, actions).entry
  {
    InterleaveGood(INITIAL_WORLD, actions);
  }

  /** At every moment of every interleaving, a succeeded row has exit code 0, is not timed out, has an empty
      error and a completion time. */
  lemma SuccessIsHonest(actions: seq<Action>)
    ensures HonestSuccess(Interleave(INITIAL_WORLD, actions).row)
  {
    InterleaveGood(INITIAL_WORLD, actions);
  }

  /** Some action of the run is a `running` write that takes effect. */
  predicate WritesRunning(w: World, actions: seq<Action>)
    decreases |actions|
  {
    actions != [] &&
    ((actions[0].Run? && w.runner.WriteRunning? && (!w.ctxCanceled || actions[0].lucky))
     || WritesRunning(Step(w, actions[0]), actions[1..]))
  }

  /** Once a cancel is written and the runner has not already decided on its final write, the row stays
      canceled as long as no `running` write follows: in particular the re-read sees it. */
  lemma {:induction false} CancelHolds(w: World, actions: seq<Action>)
    requires w.row.status == Canceled && !w.runner.WriteFinal? && !WritesRunning(w, actions)
    ensures Interleave(w, actions).row.status == Canceled
    decreases |actions|
  {
    if actions == [] {
    } else {
      CancelHolds(Step(w, actions[0]), actions[1..]);
    }
  }

  /** The runner's re-read of a canceled row settles the status. */
  lemma {:induction false} CancelSettled(w: World, actions: seq<Action>)
    requires w.row.status == Canceled && Leaving(w.runner)
    ensures Interleave(w, actions).row.status == Canceled
    decreases |actions|
  {
    if actions == [] {
    } else {
      CancelSettled(Step(w, actions[0]), actions[1..]);
    }
  }

  lemma {:induction false} InterleaveAppend(w: World, xs: seq<Action>, ys: seq<Action>)
    ensures Interleave(w, xs + ys) == Interleave(Interleave(w, xs), ys)
    decreases |xs|
  {
    if xs == [] {
      assert xs + ys == ys;
    } else {
      assert (xs + ys)[1..] == xs[1..] + ys;
      InterleaveAppend(Step(w, xs[0]), xs[1..], ys);
    }
  }

  /** A canceller's row write, then any steps without a `running` write, then the runner's re-read: whatever
      follows, the status is canceled at the end. */
  lemma CancelBeforeReread(w: World, k: nat, mid: seq<Action>, reread: Action, rest: seq<Action>)
    requires k in w.cancellers && w.cancellers[k].WriteCanceled? && !w.runner.WriteFinal?
    requires !WritesRunning(CancelStep(w, k), mid)
    requires reread.Run? && Interleave(CancelStep(w, k), mid).runner.Reread?
    ensures Interleave(w, [Cancel(k)] + mid + [reread] + rest).row.status == Canceled
  {
    var w1 := CancelStep(w, k);
    var w2 := Interleave(w1, mid);
    var w3 := Step(w2, reread);
    CancelHolds(w1, mid);
    CancelSettled(w3, rest);
    assert [Cancel(k)] + mid + [reread] + rest == [Cancel(k)] + (mid + ([reread] + rest));
    assert ([Cancel(k)] + (mid + ([reread] + rest)))[1..] == mid + ([reread] + rest);
    InterleaveAppend(w1, mid, [reread] + rest);
    assert ([reread] + rest)[1..] == rest;
  }

  /** Some action of the run is a canceller's row write. */
  predicate WritesCanceled(w: World, actions: seq<Action>)
    decreases |actions|
  {
    actions != [] &&
    ((actions[0].Cancel? && actions[0].k in w.cancellers && w.cancellers[actions[0].k].WriteCanceled?)
     || WritesCanceled(Step(w, actions[0]), actions[1..]))
  }

  /** The row is not canceled, or the runner holds the final write that will replace it. */
  predicate Overwritten(w: World) {
    w.row.status != Canceled || w.runner.WriteFinal?
  }

  /** From there, without another cancel write, the row is never canceled at the end. */
  lemma {:induction false} OverwrittenLost(w: World, actions: seq<Action>)
    requires Good(w) && Overwritten(w) && !w.runner.Register? && !w.runner.FirstRead?
    requires !WritesCanceled(w, actions) && Interleave(w, actions).runner.Finished?
    ensures Interleave(w, actions).row.status != Canceled
    decreases |actions|
  {
    hide Good;
    if actions != [] {
      StepGood(w, actions[0]);
      OverwrittenStep(w, actions[0]);
      OverwrittenLost(Step(w, actions[0]), actions[1..]);
    }
  }

  lemma OverwrittenStep(w: World, a: Action)
    requires Good(w) && Overwritten(w) && !w.runner.Register? && !w.runner.FirstRead?
    requires !(a.Cancel? && a.k in w.cancellers && w.cancellers[a.k].WriteCanceled?)
    ensures var z := Step(w, a); Overwritten(z) && !z.runner.Register? && !z.runner.FirstRead?
  {
  }

  /** From a canceled row, without another cancel write, a finished run ends canceled exactly when the runner did not
      already hold its final write and no `running` write follows. */
  lemma {:induction false} CanceledExactly(w: World, actions: seq<Action>)
    requires Good(w) && w.row.status == Canceled
    requires !WritesCanceled(w, actions) && Interleave(w, actions).runner.Finished?
    ensures Interleave(w, actions).row.status == Canceled <==> !w.runner.WriteFinal? && !WritesRunning(w, actions)
    decreases |actions|
  {
    hide Good;
    if !w.runner.WriteFinal? && !WritesRunning(w, actions) {
      CancelHolds(w, actions);
    } else if w.runner.WriteFinal? {
      OverwrittenLost(w, actions);
    } else {
      var z := Step(w, actions[0]);
      StepGood(w, actions[0]);
      if actions[0].Run? && w.runner.WriteRunning? && (!w.ctxCanceled || actions[0].lucky) {
        RunningRow(w, actions[0]);
        OverwrittenLost(z, actions[1..]);
      } else {
        StaysCanceled(w, actions[0]);
        CanceledExactly(z, actions[1..]);
      }
    }
  }

  lemma RunningRow(w: World, a: Action)
    requires Good(w) && a.Run? && w.runner.WriteRunning? && (!w.ctxCanceled || a.lucky)
    ensures var z := Step(w, a); z.row.status == InProgress && z.runner.Execute?
  {
  }

  lemma StaysCanceled(w: World, a: Action)
    requires Good(w) && w.row.status == Canceled && !w.runner.WriteFinal?
    requires !(a.Run? && w.runner.WriteRunning? && (!w.ctxCanceled || a.lucky))
    ensures Step(w, a).row.status == Canceled && !Step(w, a).runner.WriteFinal?
  {
  }

  /** The last cancel write of any run decides: once the runner finishes, the job is canceled exactly when, at that
      write, the runner did not hold its final write, and no `running` write came after it. */
  lemma LastCancelDecides(before: seq<Action>, k: nat, after: seq<Action>)
    requires var w := Interleave(INITIAL_WORLD, before); k in w.cancellers && w.cancellers[k].WriteCanceled?
    requires !WritesCanceled(Step(Interleave(INITIAL_WORLD, before), Cancel(k)), after)
    requires Interleave(INITIAL_WORLD, before + [Cancel(k)] + after).runner.Finished?
    ensures
      var w := Interleave(INITIAL_WORLD, before);
      Interleave(INITIAL_WORLD, before + [Cancel(k)] + after).row.status == Canceled
      <==> !w.runner.WriteFinal? && !WritesRunning(Step(w, Cancel(k)), after)
  {
    hide Good;
    var w := Interleave(INITIAL_WORLD, before);
    InterleaveAppend(INITIAL_WORLD, before, [Cancel(k)] + after);
    assert before + [Cancel(k)] + after == before + ([Cancel(k)] + after);
    InterleaveAppend(w, [Cancel(k)], after);
    One(w, Cancel(k));
    InitialGood();
    InterleaveGood(INITIAL_WORLD, before);
    StepGood(w, Cancel(k));
    CanceledExactly(Step(w, Cancel(k)), after);
  }

  lemma InitialGood()
    ensures Good(INITIAL_WORLD)
  {
  }

  /** The first window: a canceller that looks into the map before the runner registers, and writes between the
      runner's first read and its `running` write, leaves a job that succeeds. */
  lemma CancelLost() returns (actions: seq<Action>)
    ensures Cancel(0) in actions && AllDone(Interleave(INITIAL_WORLD, actions))
    ensures Interleave(INITIAL_WORLD, actions).row.status == Succeeded
  {
    var run := Run(false, Ran(0, false, ""));
    var xs := [Cancel(0), Cancel(0), Cancel(0), Cancel(0), run, run];
    var ys := [Cancel(0), run, run, run, run, run, run];
    actions := xs + ys;
    var w := INITIAL_WORLD;
    var job := QUEUED_JOB.(status := InProgress, started := true);
    var w1 := World(QUEUED_JOB, true, false, WriteRunning(job), map[0 := WriteCanceled(QUEUED_JOB)]);
    assert Interleave(w, xs) == w1 by {
      LostPrefix(run);
    }
    InterleaveAppend(w, xs, ys);
    LostSuffix(run, job);
  }

  /** The second window: a canceller that reads a running job and writes between the runner's re-read and its final
      write leaves a job that succeeds. */
  lemma CancelLostAtEnd() returns (actions: seq<Action>)
    ensures Cancel(0) in actions && AllDone(Interleave(INITIAL_WORLD, actions))
    ensures Interleave(INITIAL_WORLD, actions).row.status == Succeeded
  {
    hide Interleave, FinalJob;
    var run := Run(false, Ran(0, false, ""));
    var cancel := Cancel(0);
    var five := [run, run, run, run] + [run];
    var cancels := [cancel, cancel, cancel, cancel] + [cancel];
    var end := [run, run] + [run];
    actions := five + (cancels + end);
    var job := QUEUED_JOB.(status := InProgress, started := true);
    InterleaveAppend(INITIAL_WORLD, five, cancels + end);
    EndPrefix(run, job);
    var w1 := World(job, true, false, WriteFinal(FinalJob(job, Ran(0, false, ""))), map[]);
    InterleaveAppend(w1, cancels, end);
    EndCancels(w1, cancel);
    EndSuffix(Interleave(w1, cancels), run);
    assert FinalJob(job, Ran(0, false, "")).status == Succeeded by {
      CleanExit(job);
    }
    assert cancel == actions[5];
  }

  lemma CleanExit(job: Job)
    ensures FinalJob(job, Ran(0, false, "")).status == Succeeded
  {
  }

  /** The runner up to its final write. */
  lemma EndPrefix(run: Action, job: Job)
    requires run == Run(false, Ran(0, false, "")) && job == QUEUED_JOB.(status := InProgress, started := true)
    ensures Interleave(INITIAL_WORLD, [run, run, run, run] + [run]) ==
            World(job, true, false, WriteFinal(FinalJob(job, Ran(0, false, ""))), map[])
  {
    hide Interleave, FinalJob;
    InterleaveAppend(INITIAL_WORLD, [run, run, run, run], [run]);
    Four(INITIAL_WORLD, run);
    var w := Step(Step(Step(Step(INITIAL_WORLD, run), run), run), run);
    assert w == World(job, true, false, Reread(job, Ran(0, false, "")), map[]);
    One(w, run);
  }

  /** A whole cancel call on a running job. */
  lemma EndCancels(w: World, cancel: Action)
    requires cancel == Cancel(0) && w.cancellers == map[] && !Terminal(w.row.status)
    ensures var z := Interleave(w, [cancel, cancel, cancel, cancel] + [cancel]);
            z.runner == w.runner && z.cancellers == map[0 := CancelDone]
  {
    hide Interleave;
    InterleaveAppend(w, [cancel, cancel, cancel, cancel], [cancel]);
    Four(w, cancel);
    var z := Step(Step(Step(Step(w, cancel), cancel), cancel), cancel);
    assert z.cancellers == map[0 := WriteCanceled(w.row)];
    One(z, cancel);
  }

  /** The final write and the two releases. */
  lemma EndSuffix(w: World, run: Action)
    requires w.runner.WriteFinal? && run.Run?
    ensures var z := Interleave(w, [run, run] + [run]);
            z.runner.Finished? && z.row == w.runner.job && z.cancellers == w.cancellers
  {
    hide Interleave;
    InterleaveAppend(w, [run, run], [run]);
    Two(w, run);
    One(Step(Step(w, run), run), run);
  }

  lemma LostPrefix(run: Action)
    requires run == Run(false, Ran(0, false, ""))
    ensures Interleave(INITIAL_WORLD, [Cancel(0), Cancel(0), Cancel(0), Cancel(0), run, run]) ==
            World(QUEUED_JOB, true, false, WriteRunning(QUEUED_JOB.(status := InProgress, started := true)),
                  map[0 := WriteCanceled(QUEUED_JOB)])
  {
    var w0 := CancelStep(CancelStep(CancelStep(CancelStep(INITIAL_WORLD, 0), 0), 0), 0);
    assert w0 == World(QUEUED_JOB, false, false, Register, map[0 := WriteCanceled(QUEUED_JOB)]);
    var tail := [run, run];
    InterleaveAppend(INITIAL_WORLD, [Cancel(0), Cancel(0), Cancel(0), Cancel(0)], tail);
    assert [Cancel(0), Cancel(0), Cancel(0), Cancel(0)] + tail
           == [Cancel(0), Cancel(0), Cancel(0), Cancel(0), run, run];
    Four(INITIAL_WORLD, Cancel(0));
    Two(w0, run);
  }

  lemma LostSuffix(run: Action, job: Job)
    requires run == Run(false, Ran(0, false, "")) && job == QUEUED_JOB.(status := InProgress, started := true)
    ensures var w := World(QUEUED_JOB, true, false, WriteRunning(job), map[0 := WriteCanceled(QUEUED_JOB)]);
            var z := Interleave(w, [Cancel(0), run, run, run, run, run, run]);
            AllDone(z) && z.row.status == Succeeded
  {
    hide Interleave;
    var w := World(QUEUED_JOB, true, false, WriteRunning(job), map[0 := WriteCanceled(QUEUED_JOB)]);
    var w1 := CancelStep(w, 0);
    var tail := [run, run, run, run] + [run, run];
    assert [Cancel(0), run, run, run, run, run, run] == [Cancel(0)] + tail;
    InterleaveAppend(w, [Cancel(0)], tail);
    One(w, Cancel(0));
    InterleaveAppend(w1, [run, run, run, run], [run, run]);
    Four(w1, run);
    Two(Interleave(w1, [run, run, run, run]), run);
  }

  lemma One(w: World, a: Action)
    ensures Interleave(w, [a]) == Step(w, a)
  {
    assert [a][1..] == [];
  }

  lemma Two(w: World, a: Action)
    ensures Interleave(w, [a, a]) == Step(Step(w, a), a)
  {
    var tail := [a, a][1..];
    assert tail == [a] && [a][1..] == [];
    assert Interleave(Step(w, a), tail) == Interleave(Step(Step(w, a), a), []);
  }

  lemma Four(w: World, a: Action)
    ensures Interleave(w, [a, a, a, a]) == Step(Step(Step(Step(w, a), a), a), a)
  {
    assert [a, a, a, a] == [a, a] + [a, a];
    InterleaveAppend(w, [a, a], [a, a]);
    Two(w, a);
    Two(Step(Step(w, a), a), a);
  }
}
