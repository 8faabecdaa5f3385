/** The driver: `one_step` runs one pass of the job and compares the old and
    new center files, and `full_run` repeats it until the centers stop
    changing or a step budget runs out, then deletes both files. The two
    working files are the state; each is its text or absent. */
module Convergence {
  import opened Wrappers
  import opened Types
  import opened CenterStore
  import opened Sorting
  import Shuffle

  /** The old and new center files. */
  datatype Workspace = Workspace(oldFile: Option<string>, newFile: Option<string>)

  /** What `one_step` returns, and the files it leaves. */
  datatype StepResult = StepResult(converged: bool, ws: Workspace)

  /** The step counter when a main loop exits, and the files then. */
  datatype LoopEnd = LoopEnd(step: nat, ws: Workspace)

  /** `full_run`'s result, the step count, with the last centers the run
      wrote to the old file before deleting it. */
  datatype RunOutcome = RunOutcome(steps: int, finalCenters: string)

  /** `self.run()`: the job over the input points. Each mapper call reads
      the old file; the reducers append to the new file, which is created by
      the first append. With no input the mapper never runs and neither file
      is touched. */
  function RunJob(points: seq<Point>, oldFile: Option<string>, newFile: Option<string>, metric: string): Result<Option<string>, Error> {
    if |points| == 0 then Success(newFile)
    else
      var centers :- GetCenters(oldFile);
      var cs :- Shuffle.NewCenters(points, centers, metric);
      Success(AppendAll(newFile, cs))
  }

  /** `one_step(step)`: from the second step on, the new file is removed
      first (an error when it does not exist); then the job runs, the old
      and new centers are compared, and the new centers overwrite the old
      file. */
  function OneStep(ws: Workspace, step: nat, points: seq<Point>, metric: string): Result<StepResult, Error> {
    if step != 0 && ws.newFile.None? then Failure(MissingFile)
    else
      var cleared := if step != 0 then None else ws.newFile;
      var written :- RunJob(points, ws.oldFile, cleared, metric);
      var oldCenters :- GetCenters(ws.oldFile);
      var newCenters :- GetCenters(written);
      var text :- SetCenters(newCenters);
      Success(StepResult(oldCenters == newCenters, Workspace(Some(text), written)))
  }

  /** One round of a main loop, given the files and the step number. */
  type Round = (Workspace, nat) -> Result<StepResult, Error>

  /** The round `full_run` repeats: `one_step` over these points. */
  function OneStepOf(points: seq<Point>, metric: string): Round {
    (ws: Workspace, step: nat) => OneStep(ws, step, points, metric)
  }

  /** `while step < max_steps_count and not one_step(step): step += 1` */
  function BoundedLoop(round: Round, ws: Workspace, step: nat, max: nat): Result<LoopEnd, Error>
    decreases max - step
  {
    if step >= max then Success(LoopEnd(step, ws))
    else
      var r :- round(ws, step);
      if r.converged then Success(LoopEnd(step, r.ws))
      else BoundedLoop(round, r.ws, step + 1, max)
  }

  /** `while not one_step(step): step += 1`, for at most `fuel` steps. */
  function UnboundedLoop(round: Round, ws: Workspace, step: nat, fuel: nat): Result<LoopEnd, Error>
    decreases fuel
  {
    if fuel == 0 then Failure(OutOfFuel)
    else
      var r :- round(ws, step);
      if r.converged then Success(LoopEnd(step, r.ws))
      else UnboundedLoop(round, r.ws, step + 1, fuel - 1)
  }

  /** `set_centers(get_centers(start_centers_path))`, with no new file yet. */
  function StartWorkspace(start: Option<string>): Result<Workspace, Error> {
    var cs :- GetCenters(start);
    var text :- SetCenters(cs);
    Success(Workspace(Some(text), None))
  }

  /** `full_run(max_steps_count, start_centers_path)`; a budget of 0 means no
      budget. */
  function FullRun(start: Option<string>, points: seq<Point>, metric: string, maxSteps: int, fuel: nat): (r: Result<RunOutcome, Error>)
    ensures maxSteps < 0 ==> r == Failure(NegativeBudget)
    ensures maxSteps >= 0 && StartWorkspace(start).Failure? ==> r == Failure(StartWorkspace(start).error)
  {
    if maxSteps < 0 then Failure(NegativeBudget)
    else
      var ws :- StartWorkspace(start);
      RunWith(OneStepOf(points, metric), ws, maxSteps, fuel)
  }

  /** The rest of `full_run` once the files are prepared: the main loop, the
      step count correction, and the removal of both files (an error when
      either does not exist). */
  function RunWith(round: Round, ws: Workspace, maxSteps: nat, fuel: nat): Result<RunOutcome, Error> {
    var end :- if maxSteps == 0 then UnboundedLoop(round, ws, 0, fuel)
               else BoundedLoop(round, ws, 0, maxSteps);
    var step := if maxSteps > 0 && end.step == maxSteps then end.step - 1 else end.step;
    if end.ws.oldFile.None? || end.ws.newFile.None? then Failure(MissingFile)
    else Success(RunOutcome(step + 1, end.ws.oldFile.value))
  }

  // ---------------------------------------------------------------------------
  // The rounds a run executes

  /** `n` rounds run one after another from step `step`, whatever they
      report: the reference the loops are measured against. */
  function Rounds(round: Round, ws: Workspace, step: nat, n: nat): Result<seq<StepResult>, Error>
    decreases n
  {
    if n == 0 then Success([])
    else
      var r :- round(ws, step);
      var rest :- Rounds(round, r.ws, step + 1, n - 1);
      Success([r] + rest)
  }

  /** No round but the last reported convergence. */
  predicate NoEarlierConvergence(tr: seq<StepResult>) {
    forall i :: 0 <= i < |tr| - 1 ==> !tr[i].converged
  }

  /** The bounded loop executes `n` rounds, where `n` counts up to the
      converging round or to the budget: none before the last converged, and
      the last converged exactly when the loop stopped short of the budget. */
  lemma {:induction false} BoundedLoopTrace(round: Round, ws: Workspace, step: nat, max: nat)
    requires step < max
    requires BoundedLoop(round, ws, step, max).Success?
    ensures var e := BoundedLoop(round, ws, step, max).value;
      var n := (if e.step == max then max else e.step + 1) - step;
      && step <= e.step <= max && n > 0
      && Rounds(round, ws, step, n).Success?
      && |Rounds(round, ws, step, n).value| == n
      && NoEarlierConvergence(Rounds(round, ws, step, n).value)
      && (Rounds(round, ws, step, n).value[n - 1].converged <==> e.step < max)
      && Rounds(round, ws, step, n).value[n - 1].ws == e.ws
    decreases max - step
  {
    var r := round(ws, step).value;
    if r.converged || step + 1 == max {
      assert Rounds(round, r.ws, step + 1, 0) == Success([]);
      assert [r] + [] == [r];
      assert Rounds(round, ws, step, 1) == Success([r]);
    } else {
      BoundedLoopTrace(round, r.ws, step + 1, max);
      var e := BoundedLoop(round, ws, step, max).value;
      var n := (if e.step == max then max else e.step + 1) - step;
      var rest := Rounds(round, r.ws, step + 1, n - 1).value;
      assert Rounds(round, ws, step, n) == Success([r] + rest);
      assert forall i :: 1 <= i < n ==> ([r] + rest)[i] == rest[i - 1];
    }
  }

  /** The unbounded loop executes rounds up to the first that converges. */
  lemma {:induction false} UnboundedLoopTrace(round: Round, ws: Workspace, step: nat, fuel: nat)
    requires UnboundedLoop(round, ws, step, fuel).Success?
    ensures var e := UnboundedLoop(round, ws, step, fuel).value;
      var n := e.step + 1 - step;
      && step <= e.step && n <= fuel
      && Rounds(round, ws, step, n).Success?
      && |Rounds(round, ws, step, n).value| == n
      && NoEarlierConvergence(Rounds(round, ws, step, n).value)
      && Rounds(round, ws, step, n).value[n - 1].converged
      && Rounds(round, ws, step, n).value[n - 1].ws == e.ws
    decreases fuel
  {
    var r := round(ws, step).value;
    if r.converged {
      assert Rounds(round, r.ws, step + 1, 0) == Success([]);
      assert [r] + [] == [r];
      assert Rounds(round, ws, step, 1) == Success([r]);
    } else {
      UnboundedLoopTrace(round, r.ws, step + 1, fuel - 1);
      var e := UnboundedLoop(round, ws, step, fuel).value;
      var n := e.step + 1 - step;
      var rest := Rounds(round, r.ws, step + 1, n - 1).value;
      assert Rounds(round, ws, step, n) == Success([r] + rest);
      assert forall i :: 1 <= i < n ==> ([r] + rest)[i] == rest[i - 1];
    }
  }

  /** With a budget, the count returned is the number of rounds executed: it
      lies between 1 and the budget, no earlier round converged, a count below
      the budget means the last round converged, and the centers left in the
      old file are those of the last round. */
  lemma RunBounded(round: Round, ws: Workspace, maxSteps: nat, fuel: nat)
    requires maxSteps > 0
    requires RunWith(round, ws, maxSteps, fuel).Success?
    ensures var out := RunWith(round, ws, maxSteps, fuel).value;
      var tr := Rounds(round, ws, 0, out.steps);
      && 1 <= out.steps <= maxSteps
      && tr.Success? && |tr.value| == out.steps
      && NoEarlierConvergence(tr.value)
      && (out.steps < maxSteps ==> tr.value[out.steps - 1].converged)
      && tr.value[out.steps - 1].ws.oldFile == Some(out.finalCenters)
  {
    BoundedLoopTrace(round, ws, 0, maxSteps);
  }

  /** Without a budget, the count returned is the number of rounds executed,
      and the last round, and only it, converged. */
  lemma RunUnbounded(round: Round, ws: Workspace, fuel: nat)
    requires RunWith(round, ws, 0, fuel).Success?
    ensures var out := RunWith(round, ws, 0, fuel).value;
      var tr := Rounds(round, ws, 0, out.steps);
      && 1 <= out.steps <= fuel
      && tr.Success? && |tr.value| == out.steps
      && NoEarlierConvergence(tr.value)
      && tr.value[out.steps - 1].converged
      && tr.value[out.steps - 1].ws.oldFile == Some(out.finalCenters)
  {
    UnboundedLoopTrace(round, ws, 0, fuel);
  }

  // ---------------------------------------------------------------------------
  // What a round computes

  /** Centers in ascending id order, appended to an absent file by the
      reducers, read back as themselves. */
  lemma AppendedCentersReadBack(cs: seq<Center>)
    requires SortedById(Records(cs))
    ensures GetCenters(AppendAll(None, cs)) == Success(Records(cs))
  {
    AppendAllToAbsent(cs);
    if |cs| > 0 {
      ReadSerialised(cs);
      SortOfSorted(Records(cs));
    }
  }

  /** Centers in ascending id order written by `set_centers` read back as
      themselves. */
  lemma SetCentersReadBack(cs: seq<Center>)
    requires SortedById(Records(cs))
    ensures SetCenters(Records(cs)).Success?
    ensures GetCenters(Some(SetCenters(Records(cs)).value)) == Success(Records(cs))
  {
    assert Truncated(Records(cs)) == Records(cs);
    SetThenGet(Records(cs));
    SortOfSorted(Records(cs));
  }

  /** A round over at least one point, started without a stale new file:
      the new file holds the centers `NewCenters` computes from the old
      file's centers, the old file is overwritten with those same centers,
      and the round reports convergence exactly when they equal the old
      file's centers. */
  lemma OneStepComputesNewCenters(ws: Workspace, step: nat, points: seq<Point>, metric: string)
    requires |points| > 0
    requires step != 0 || ws.newFile.None?
    requires OneStep(ws, step, points, metric).Success?
    ensures GetCenters(ws.oldFile).Success?
    ensures Shuffle.NewCenters(points, GetCenters(ws.oldFile).value, metric).Success?
    ensures var cs := Records(Shuffle.NewCenters(points, GetCenters(ws.oldFile).value, metric).value);
      var r := OneStep(ws, step, points, metric).value;
      && GetCenters(r.ws.newFile) == Success(cs)
      && GetCenters(r.ws.oldFile) == Success(cs)
      && (r.converged <==> GetCenters(ws.oldFile).value == cs)
  {
    var centers := GetCenters(ws.oldFile).value;
    var cs := Shuffle.NewCenters(points, centers, metric).value;
    Shuffle.NewCentersAscending(points, centers, metric);
    AppendedCentersReadBack(cs);
    SetCentersReadBack(cs);
  }

  /** A round can converge only when the old centers' ids are exactly their
      positions 0 up to k - 1: after a cluster has vanished, the survivors
      are relabelled and that round cannot converge. */
  lemma ConvergedIdsArePositions(ws: Workspace, step: nat, points: seq<Point>, metric: string)
    requires |points| > 0
    requires step != 0 || ws.newFile.None?
    requires OneStep(ws, step, points, metric).Success?
    requires OneStep(ws, step, points, metric).value.converged
    ensures GetCenters(ws.oldFile).Success?
    ensures var before := GetCenters(ws.oldFile).value;
      |before| > 0 && forall i :: 0 <= i < |before| ==> before[i].id == i
  {
    OneStepComputesNewCenters(ws, step, points, metric);
    var centers := GetCenters(ws.oldFile).value;
    Shuffle.NewCentersCount(points, centers, metric);
    Shuffle.NewCentersDense(points, centers, metric);
  }

  /** A round over no points leaves the new file absent. */
  lemma OneStepWithoutPoints(ws: Workspace, metric: string)
    requires ws.newFile.None?
    requires GetCenters(ws.oldFile).Success?
    ensures OneStep(ws, 0, [], metric).Success?
    ensures OneStep(ws, 0, [], metric).value.ws == Workspace(Some(""), None)
  {
    assert SetCenters([]) == Success("");
  }

  /** A loop whose first round leaves no new file fails: the next round, or
      the final cleanup, removes a file that does not exist. */
  lemma RunWithoutNewFile(round: Round, ws: Workspace, maxSteps: nat, fuel: nat)
    requires round(ws, 0).Success? && round(ws, 0).value.ws.newFile.None?
    requires forall w: Workspace, s: nat :: s != 0 && w.newFile.None? ==> round(w, s) == Failure(MissingFile)
    requires maxSteps > 0 || fuel >= 2
    ensures RunWith(round, ws, maxSteps, fuel) == Failure(MissingFile)
  {
    var r := round(ws, 0).value;
    if !r.converged && maxSteps != 1 {
      assert round(r.ws, 1) == Failure(MissingFile);
      if maxSteps == 0 {
        assert UnboundedLoop(round, r.ws, 1, fuel - 1) == Failure(MissingFile);
      } else {
        assert BoundedLoop(round, r.ws, 1, maxSteps) == Failure(MissingFile);
      }
    }
  }

  /** With no input points `full_run` always fails: the job never creates
      the new center file, so it cannot be removed. */
  lemma NoPointsMissingFile(start: Option<string>, metric: string, maxSteps: int, fuel: nat)
    requires StartWorkspace(start).Success?
    requires maxSteps > 0 || (maxSteps == 0 && fuel >= 2)
    ensures FullRun(start, [], metric, maxSteps, fuel) == Failure(MissingFile)
  {
    var ws := StartWorkspace(start).value;
    var cs := GetCenters(start).value;
    SetThenGet(cs);
    OneStepWithoutPoints(ws, metric);
    RunWithoutNewFile(OneStepOf([], metric), ws, maxSteps, fuel);
  }

  /** A loop whose first round converges and leaves both files stops with a
      count of one. */
  lemma RunConvergedAtOnce(round: Round, ws: Workspace, maxSteps: nat, fuel: nat)
    requires round(ws, 0).Success? && round(ws, 0).value.converged
    requires round(ws, 0).value.ws.oldFile.Some? && round(ws, 0).value.ws.newFile.Some?
    requires maxSteps > 0 || fuel > 0
    ensures RunWith(round, ws, maxSteps, fuel) == Success(RunOutcome(1, round(ws, 0).value.ws.oldFile.value))
  {
  }

  /** A round from old centers that the job maps to themselves converges,
      leaving both files and those centers in the old one. */
  lemma FixedPointRound(ws: Workspace, points: seq<Point>, metric: string, centers: seq<Record>)
    requires |points| > 0
    requires ws.newFile.None?
    requires GetCenters(ws.oldFile) == Success(centers)
    requires Shuffle.NewCenters(points, centers, metric).Success?
    requires Records(Shuffle.NewCenters(points, centers, metric).value) == centers
    ensures OneStep(ws, 0, points, metric).Success?
    ensures var r := OneStep(ws, 0, points, metric).value;
      && r.converged && r.ws.oldFile.Some? && r.ws.newFile.Some?
      && GetCenters(r.ws.oldFile) == Success(centers)
  {
    var cs := Shuffle.NewCenters(points, centers, metric).value;
    Shuffle.NewCentersCount(points, centers, metric);
    Shuffle.NewCentersAscending(points, centers, metric);
    AppendAllToAbsent(cs);
    AppendedCentersReadBack(cs);
    SetCentersReadBack(cs);
    assert RunJob(points, ws.oldFile, None, metric) == Success(AppendAll(None, cs));
    OneStepComputesNewCenters(ws, 0, points, metric);
  }

  /** Once the files are prepared, `full_run` is the main loop over
      `one_step`. */
  lemma FullRunIsRunWith(start: Option<string>, points: seq<Point>, metric: string, maxSteps: nat, fuel: nat)
    requires StartWorkspace(start).Success?
    ensures FullRun(start, points, metric, maxSteps, fuel)
         == RunWith(OneStepOf(points, metric), StartWorkspace(start).value, maxSteps, fuel)
  {
  }

  /** What a run with budget n > 0 returned `out` means: `out.steps` rounds
      were executed, between 1 and n, no earlier round converged, the last
      converged when fewer than n were executed, and the final centers are
      those the last round left in the old file. */
  predicate BoundedOutcome(round: Round, ws: Workspace, maxSteps: nat, out: RunOutcome) {
    && 1 <= out.steps <= maxSteps
    && var tr := Rounds(round, ws, 0, out.steps);
    && tr.Success? && |tr.value| == out.steps
    && NoEarlierConvergence(tr.value)
    && (out.steps < maxSteps ==> tr.value[out.steps - 1].converged)
    && tr.value[out.steps - 1].ws.oldFile == Some(out.finalCenters)
  }

  /** What a run without a budget returned `out` means: `out.steps` rounds
      were executed, the last of which, and only it, converged, and the final
      centers are those it left in the old file. */
  predicate UnboundedOutcome(round: Round, ws: Workspace, out: RunOutcome) {
    && 1 <= out.steps
    && var tr := Rounds(round, ws, 0, out.steps);
    && tr.Success? && |tr.value| == out.steps
    && NoEarlierConvergence(tr.value)
    && tr.value[out.steps - 1].converged
    && tr.value[out.steps - 1].ws.oldFile == Some(out.finalCenters)
  }

  lemma RunBoundedOf(round: Round, ws: Workspace, maxSteps: nat, fuel: nat, r: Result<RunOutcome, Error>)
    requires maxSteps > 0
    requires r == RunWith(round, ws, maxSteps, fuel) && r.Success?
    ensures BoundedOutcome(round, ws, maxSteps, r.value)
  {
    RunBounded(round, ws, maxSteps, fuel);
  }

  lemma RunUnboundedOf(round: Round, ws: Workspace, fuel: nat, r: Result<RunOutcome, Error>)
    requires r == RunWith(round, ws, 0, fuel) && r.Success?
    ensures UnboundedOutcome(round, ws, r.value)
  {
    RunUnbounded(round, ws, fuel);
  }

  /** `full_run` with a budget of n > 0 returns the number of `one_step`
      rounds it executed from the rewritten start centers, as
      `BoundedOutcome` describes. */
  lemma FullRunBounded(start: Option<string>, points: seq<Point>, metric: string, maxSteps: int, fuel: nat)
    requires maxSteps > 0
    requires FullRun(start, points, metric, maxSteps, fuel).Success?
    ensures StartWorkspace(start).Success?
    ensures BoundedOutcome(OneStepOf(points, metric), StartWorkspace(start).value, maxSteps,
                           FullRun(start, points, metric, maxSteps, fuel).value)
  {
    FullRunIsRunWith(start, points, metric, maxSteps, fuel);
    RunBoundedOf(OneStepOf(points, metric), StartWorkspace(start).value, maxSteps, fuel,
                 FullRun(start, points, metric, maxSteps, fuel));
  }

  /** `full_run` with a budget of 0 returns the number of `one_step` rounds
      it executed from the rewritten start centers, as `UnboundedOutcome`
      describes. */
  lemma FullRunUnbounded(start: Option<string>, points: seq<Point>, metric: string, fuel: nat)
    requires FullRun(start, points, metric, 0, fuel).Success?
    ensures StartWorkspace(start).Success?
    ensures UnboundedOutcome(OneStepOf(points, metric), StartWorkspace(start).value,
                             FullRun(start, points, metric, 0, fuel).value)
  {
    FullRunIsRunWith(start, points, metric, 0, fuel);
    RunUnboundedOf(OneStepOf(points, metric), StartWorkspace(start).value, fuel,
                   FullRun(start, points, metric, 0, fuel));
  }

  /** Starting centers that the job maps to themselves are a fixed point:
      `full_run` stops after one step, leaving those centers. */
  lemma FixedPointStopsAtOnce(start: Option<string>, points: seq<Point>, metric: string, maxSteps: int, fuel: nat)
    requires |points| > 0
    requires StartWorkspace(start).Success?
    requires maxSteps > 0 || (maxSteps == 0 && fuel > 0)
    requires var centers := SortById(Truncated(GetCenters(start).value));
      && Shuffle.NewCenters(points, centers, metric).Success?
      && Records(Shuffle.NewCenters(points, centers, metric).value) == centers
    ensures FullRun(start, points, metric, maxSteps, fuel).Success?
    ensures FullRun(start, points, metric, maxSteps, fuel).value.steps == 1
    ensures GetCenters(Some(FullRun(start, points, metric, maxSteps, fuel).value.finalCenters))
         == Success(SortById(Truncated(GetCenters(start).value)))
  {
    var ws := StartWorkspace(start).value;
    var centers := SortById(Truncated(GetCenters(start).value));
    SetThenGet(GetCenters(start).value);
    FixedPointRound(ws, points, metric, centers);
    var round := OneStepOf(points, metric);
    assert round(ws, 0) == OneStep(ws, 0, points, metric);
    RunConvergedAtOnce(round, ws, maxSteps as nat, fuel);
    FullRunIsRunWith(start, points, metric, maxSteps as nat, fuel);
  }
}
