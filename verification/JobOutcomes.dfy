/** What an exec job's row can hold at any moment of any interleaving, and what the runner and a canceller do alone. */
module JobOutcomes {
  import opened ExecJob

  // ---------------------------------------------------------------------------------------------
  // The row at every moment

  /** A command that ran ends succeeded exactly when it was not timed out and its exit code was 0. */
  predicate RanTo(j: Job, code: int, timedOut: bool, stdout: string) {
    if timedOut then j == Job(Failed, code, true, TimedOutError, true, true, stdout)
    else if code != 0 then j == Job(Failed, code, false, ExitError(code), true, true, stdout)
    else j == Job(Succeeded, 0, false, NoError, true, true, stdout)
  }

  /** The only rows that occur. */
  predicate RowShape(j: Job) {
    || j == Job(Queued, -1, false, NoError, false, false, "")
    || j == Job(InProgress, -1, false, NoError, true, false, "")
    || j == Job(Failed, -1, false, RunError, true, true, "")
    || RanTo(j, j.exitCode, j.timedOut, j.stdout)
    || j == Job(Canceled, -1, false, CanceledError, j.started, true, "")
  }

  predicate Unfinished(j: Job) {
    (j.status == Queued || j.status == InProgress) && RowShape(j)
  }

  predicate CancellerShape(c: Canceller) {
    (c.Lookup? || c.CallCancel? || c.WriteCanceled?) ==> Unfinished(c.job)
  }

  predicate Shaped(w: World) {
    && RowShape(w.row)
    && (w.runner.Register? || w.runner.FirstRead? ==> w.row.status == Queued || w.row.status == Canceled)
    && (w.runner.WriteRunning? || w.runner.Execute? || w.runner.Reread? ==>
          w.runner.job == Job(InProgress, -1, false, NoError, true, false, ""))
    && (w.runner.WriteFinal? ==> RowShape(w.runner.job))
    && forall k :: k in w.cancellers ==> CancellerShape(w.cancellers[k])
  }

  lemma StepShaped(w: World, a: Action)
    requires Shaped(w)
    ensures Shaped(Step(w, a))
  {
    hide RanTo, RowShape, FinalJob;
    RunningShape();
    if a.Cancel? {
      if a.k in w.cancellers {
        ChangedShapes(w.row, w.cancellers[a.k]);
      }
    } else if w.runner.Reread? {
      FinalShape(w.runner.outcome);
    } else if w.runner.FirstRead? {
      QueuedRow(w.row);
    }
  }

  lemma RunningShape()
    ensures RowShape(Job(InProgress, -1, false, NoError, true, false, ""))
  {
  }

  lemma QueuedRow(j: Job)
    requires RowShape(j)
    ensures j.status == Queued ==>
              j.(status := InProgress, started := true) == Job(InProgress, -1, false, NoError, true, false, "")
  {
  }

  lemma FinalShape(o: Outcome)
    ensures RowShape(FinalJob(Job(InProgress, -1, false, NoError, true, false, ""), o))
  {
  }

  lemma ChangedShapes(row: Job, c: Canceller)
    requires RowShape(row) && CancellerShape(c)
    ensures Terminal(row.status) || Unfinished(row)
    ensures c.WriteCanceled? ==> RowShape(c.job.(status := Canceled, error := CanceledError, completed := true))
  {
  }

  lemma {:induction false} InterleaveShaped(w: World, actions: seq<Action>)
    requires Shaped(w)
    ensures Shaped(Interleave(w, actions))
    decreases |actions|
  {
    hide Shaped, Step;
    if actions != [] {
      StepShaped(w, actions[0]);
      InterleaveShaped(Step(w, actions[0]), actions[1..]);
    }
  }

  /** At every moment of every interleaving the row is queued, running, canceled, or exactly the record of a command
      that could not be run, timed out, failed or succeeded. */
  lemma RowsExactly(actions: seq<Action>)
    ensures RowShape(Interleave(INITIAL_WORLD, actions).row)
  {
    InterleaveShaped(INITIAL_WORLD, actions);
  }

  // ---------------------------------------------------------------------------------------------
  // Calls that run alone

  function Repeat(a: Action, n: nat): (r: seq<Action>)
    ensures |r| == n
  {
    if n == 0 then [] else [a] + Repeat(a, n - 1)
  }

  lemma RepeatStep(w: World, a: Action, n: nat)
    ensures n > 0 ==> Interleave(w, Repeat(a, n)) == Interleave(Step(w, a), Repeat(a, n - 1))
    ensures n == 0 ==> Interleave(w, Repeat(a, n)) == w
  {
    if n > 0 {
      assert Repeat(a, n)[1..] == Repeat(a, n - 1);
    }
  }

  /** A job nobody cancels ends with the record of its command, and leaves no entry in the cancel map. */
  lemma RunAlone(o: Outcome)
    ensures
      var w := Interleave(INITIAL_WORLD, Repeat(Run(true, o), 8));
      && w.runner.Finished? && !w.entry && w.ctxCanceled && w.cancellers == map[]
      && match o
         case RunFailed => w.row == Job(Failed, -1, false, RunError, true, true, "")
         case Ran(code, timedOut, stdout) => RanTo(w.row, code, timedOut, stdout)
  {
    hide Interleave, Repeat;
    var a := Run(true, o);
    var w0 := INITIAL_WORLD;
    var w1 := Step(w0, a);
    var w2 := Step(w1, a);
    var w3 := Step(w2, a);
    var w4 := Step(w3, a);
    RepeatStep(w0, a, 8);
    RepeatStep(w1, a, 7);
    RepeatStep(w2, a, 6);
    RepeatStep(w3, a, 5);
    assert w4 == World(Job(InProgress, -1, false, NoError, true, false, ""), true, false,
                       Reread(Job(InProgress, -1, false, NoError, true, false, ""), o), map[]);
    RunAloneEnd(w4, o);
  }

  lemma RunAloneEnd(w4: World, o: Outcome)
    requires w4.runner == Reread(Job(InProgress, -1, false, NoError, true, false, ""), o)
    requires w4.row.status != Canceled && w4.cancellers == map[]
    ensures
      var w := Interleave(w4, Repeat(Run(true, o), 4));
      && w.runner.Finished? && !w.entry && w.ctxCanceled && w.cancellers == map[]
      && match o
         case RunFailed => w.row == Job(Failed, -1, false, RunError, true, true, "")
         case Ran(code, timedOut, stdout) => RanTo(w.row, code, timedOut, stdout)
  {
    hide Interleave, Repeat;
    var a := Run(true, o);
    var w5 := Step(w4, a);
    var w6 := Step(w5, a);
    var w7 := Step(w6, a);
    RepeatStep(w4, a, 4);
    RepeatStep(w5, a, 3);
    RepeatStep(w6, a, 2);
    RepeatStep(w7, a, 1);
    RepeatStep(Step(w7, a), a, 0);
  }

  /** A cancel call that runs alone leaves a finished job as it is. It marks any other job canceled, whatever else its
      row holds, and ends the runner's context exactly when the runner has registered and not left. */
  lemma CancelAlone(w: World, k: nat)
    requires k !in w.cancellers
    ensures
      var z := Interleave(w, Repeat(Cancel(k), 5));
      && k in z.cancellers && z.cancellers[k].CancelDone? && z.runner == w.runner && z.entry == w.entry
      && if w.row.status == Succeeded || w.row.status == Failed || w.row.status == Canceled
         then z.row == w.row && z.ctxCanceled == w.ctxCanceled
         else z.row == w.row.(status := Canceled, error := CanceledError, completed := true)
              && z.ctxCanceled == (w.ctxCanceled || w.entry)
  {
    hide Interleave, Repeat;
    var a := Cancel(k);
    var w1 := Step(w, a);
    var w2 := Step(w1, a);
    var w3 := Step(w2, a);
    var w4 := Step(w3, a);
    RepeatStep(w, a, 5);
    RepeatStep(w1, a, 4);
    RepeatStep(w2, a, 3);
    RepeatStep(w3, a, 2);
    RepeatStep(w4, a, 1);
    RepeatStep(Step(w4, a), a, 0);
  }

  /** A cancel that comes before the runner's first read keeps the command from running: however the runner goes on, it
      never executes. */
  lemma {:induction false} CanceledNeverRuns(w: World, actions: seq<Action>)
    requires w.row.status == Canceled && (w.runner.Register? || w.runner.FirstRead? || Leaving(w.runner))
    ensures var z := Interleave(w, actions);
            z.row.status == Canceled && (z.runner.Register? || z.runner.FirstRead? || Leaving(z.runner))
    decreases |actions|
  {
    if actions != [] {
      CanceledNeverRuns(Step(w, actions[0]), actions[1..]);
    }
  }

  /** An ended context stops the job: when the first read fails under it, nothing is executed and the row stays as it
      is; when the `running` write fails under it, the row keeps what it held. */
  lemma EndedContext(w: World, o: Outcome)
    requires w.ctxCanceled
    ensures w.runner.FirstRead? ==>
              var z := Interleave(w, Repeat(Run(false, o), 3)); z.runner.Finished? && z.row == w.row && !z.entry
    ensures w.runner.WriteRunning? ==>
              var z := Interleave(w, Repeat(Run(false, o), 1)); z.runner.Execute? && z.row == w.row
  {
    hide Interleave, Repeat;
    var a := Run(false, o);
    var w1 := Step(w, a);
    RepeatStep(w, a, 1);
    RepeatStep(w1, a, 0);
    RepeatStep(w, a, 3);
    RepeatStep(w1, a, 2);
    RepeatStep(Step(w1, a), a, 1);
    RepeatStep(Step(Step(w1, a), a), a, 0);
  }

  // ---------------------------------------------------------------------------------------------
  // A finished job

  predicate Settled(w: World) {
    w.runner.Finished? && Terminal(w.row.status) && !w.entry
    && forall k :: k in w.cancellers ==> w.cancellers[k].CancelRead? || w.cancellers[k].CancelDone?
  }

  lemma {:induction false} SettledStays(w: World, actions: seq<Action>)
    requires Settled(w)
    ensures Settled(Interleave(w, actions)) && Interleave(w, actions).row == w.row
    decreases |actions|
  {
    if actions != [] {
      assert Settled(Step(w, actions[0]));
      SettledStays(Step(w, actions[0]), actions[1..]);
    }
  }

  /** Once all calls are done, no later call and no later step changes the row. */
  lemma FinishedStays(before: seq<Action>, later: seq<Action>)
    requires AllDone(Interleave(INITIAL_WORLD, before))
    ensures Interleave(INITIAL_WORLD, before + later).row == Interleave(INITIAL_WORLD, before).row
  {
    InterleaveAppend(INITIAL_WORLD, before, later);
    FinalStatus(before);
    SettledStays(Interleave(INITIAL_WORLD, before), later);
  }
}
