/** The taskRunning guard of cron_sched.go: manual runs of a task exclude each other, cron runs take no guard. */
module TaskRuns {
  type TaskId = string

  class TaskGuard {
    var taskRunning: set<TaskId>

    constructor ()
      ensures taskRunning == {}
    {
      taskRunning := {};
    }

    /** StartTaskRun up to the end of its first locked region. */
    method Claim(id: TaskId) returns (ok: bool)
      modifies this
      ensures ok == (id !in old(taskRunning)) && taskRunning == old(taskRunning) + {id}
    {
      if id in taskRunning {
        return false;
      }
      taskRunning := taskRunning + {id};
      ok := true;
    }

    /** Deferred in the run's goroutine, and done at once when the task does not exist. */
    method Release(id: TaskId)
      modifies this
      ensures taskRunning == old(taskRunning) - {id}
    {
      taskRunning := taskRunning - {id};
    }
  }

  // ---- every interleaving -----------------------------------------------------------------------------------

  /** A run of a task, claimed by hand or fired by the scheduler: executing from Begin to End. */
  datatype Phase = Claimed | Executing | Over
  datatype TaskRun = TaskRun(id: TaskId, manual: bool, phase: Phase)

  datatype State = State(taskRunning: set<TaskId>, runs: seq<TaskRun>)

  const INIT: State := State({}, [])

  datatype Action =
    | Start(id: TaskId)    // StartTaskRun takes the guard, or is refused
    | Missing(r: nat)      // the task's row is gone: the guard is given back
    | Begin(r: nat)
    | End(r: nat)
    | CronFire(id: TaskId)

  predicate Enabled(s: State, a: Action) {
    match a
    case Start(_) => true
    case Missing(r) => r < |s.runs| && s.runs[r].phase.Claimed?
    case Begin(r) => r < |s.runs| && s.runs[r].phase.Claimed?
    case End(r) => r < |s.runs| && s.runs[r].phase.Executing?
    case CronFire(_) => true
  }

  function Finished(s: State, r: nat): State
    requires r < |s.runs|
  {
    State(if s.runs[r].manual then s.taskRunning - {s.runs[r].id} else s.taskRunning,
          s.runs[r := s.runs[r].(phase := Over)])
  }

  function Step(s: State, a: Action): State
    requires Enabled(s, a)
  {
    match a
    case Start(id) =>
      if id in s.taskRunning then s else State(s.taskRunning + {id}, s.runs + [TaskRun(id, true, Claimed)])
    case Missing(r) => Finished(s, r)
    case Begin(r) => s.(runs := s.runs[r := s.runs[r].(phase := Executing)])
    case End(r) => Finished(s, r)
    case CronFire(id) => s.(runs := s.runs + [TaskRun(id, false, Executing)])
  }

  predicate Run(states: seq<State>, actions: seq<Action>) {
    && |states| == |actions| + 1 && states[0] == INIT
    && forall i | 0 <= i < |actions| :: Enabled(states[i], actions[i]) && states[i + 1] == Step(states[i], actions[i])
  }

  predicate Open(r: TaskRun) { r.manual && !r.phase.Over? }

  predicate HasOpen(runs: seq<TaskRun>, id: TaskId) {
    exists r | 0 <= r < |runs| :: Open(runs[r]) && runs[r].id == id
  }

  /** The guard names exactly the tasks with an open manual run, and no task has two. */
  ghost predicate GuardInv(s: State) {
    && (forall id :: id in s.taskRunning <==> HasOpen(s.runs, id))
    && (forall q, r | 0 <= q < |s.runs| && 0 <= r < |s.runs| && Open(s.runs[q]) && Open(s.runs[r]) ::
          s.runs[q].id == s.runs[r].id ==> q == r)
  }

  lemma OpenAfterAppend(runs: seq<TaskRun>, x: TaskRun, id: TaskId)
    ensures HasOpen(runs + [x], id) <==> HasOpen(runs, id) || (Open(x) && x.id == id)
  {
    var all := runs + [x];
    assert all[|runs|] == x && forall r | 0 <= r < |runs| :: all[r] == runs[r];
  }

  lemma OpenAfterUpdate(runs: seq<TaskRun>, r: nat, x: TaskRun, id: TaskId)
    requires r < |runs| && x.id == runs[r].id
    requires forall q | 0 <= q < |runs| && Open(runs[q]) && Open(runs[r]) :: runs[q].id == runs[r].id ==> q == r
    ensures HasOpen(runs[r := x], id)
            <==> if Open(runs[r]) && id == x.id then Open(x) else HasOpen(runs, id) || (Open(x) && id == x.id)
    ensures Open(runs[r]) ==> HasOpen(runs, x.id)
  {
    var after := runs[r := x];
    assert after[r] == x && forall q | 0 <= q < |runs| && q != r :: after[q] == runs[q];
    if q :| 0 <= q < |runs| && Open(runs[q]) && runs[q].id == id && q != r {
      assert Open(after[q]);
    }
  }

  lemma GuardStep(s: State, a: Action)
    requires GuardInv(s) && Enabled(s, a)
    ensures GuardInv(Step(s, a))
  {
    hide HasOpen;
    var s' := Step(s, a);
    forall id
      ensures id in s'.taskRunning <==> HasOpen(s'.runs, id)
    {
      match a {
        case Start(x) => OpenAfterAppend(s.runs, TaskRun(x, true, Claimed), id);
        case CronFire(x) => OpenAfterAppend(s.runs, TaskRun(x, false, Executing), id);
        case Missing(r) => OpenAfterUpdate(s.runs, r, s.runs[r].(phase := Over), id);
        case Begin(r) => OpenAfterUpdate(s.runs, r, s.runs[r].(phase := Executing), id);
        case End(r) => OpenAfterUpdate(s.runs, r, s.runs[r].(phase := Over), id);
      }
    }
    if a.Start? && a.id !in s.taskRunning {
      NoneOpen(s.runs, a.id);
    }
  }

  lemma NoneOpen(runs: seq<TaskRun>, id: TaskId)
    requires !HasOpen(runs, id)
    ensures forall r | 0 <= r < |runs| && Open(runs[r]) :: runs[r].id != id
  {}

  /** In every reachable state a task is marked running exactly when one manual run of it is open, and two
      executions of a task that overlap are never both manual. */
  lemma {:induction false} ManualRunsExclude(states: seq<State>, actions: seq<Action>, i: nat)
    requires Run(states, actions) && i < |states|
    ensures GuardInv(states[i])
    ensures forall q, r | 0 <= q < |states[i].runs| && 0 <= r < |states[i].runs| && q != r
                          && states[i].runs[q].phase.Executing? && states[i].runs[r].phase.Executing?
                          && states[i].runs[q].id == states[i].runs[r].id ::
              !(states[i].runs[q].manual && states[i].runs[r].manual)
  {
    hide Step, Enabled, HasOpen;
    if i > 0 {
      ManualRunsExclude(states, actions, i - 1);
      GuardStep(states[i - 1], actions[i - 1]);
    } else {
      NothingRuns();
    }
  }

  lemma NothingRuns()
    ensures GuardInv(INIT)
  {}

  /** A cron run does not ask the guard: it may execute beside a manual run of its task. */
  lemma CronRunsOverlap(id: TaskId) returns (states: seq<State>, actions: seq<Action>)
    ensures Run(states, actions)
    ensures states[|actions|].runs == [TaskRun(id, true, Executing), TaskRun(id, false, Executing)]
  {
    var s1 := State({id}, [TaskRun(id, true, Claimed)]);
    var s2 := State({id}, [TaskRun(id, true, Executing)]);
    var s3 := State({id}, [TaskRun(id, true, Executing), TaskRun(id, false, Executing)]);
    assert {} + {id} == {id};
    states, actions := [INIT, s1, s2, s3], [Start(id), Begin(0), CronFire(id)];
  }
}
