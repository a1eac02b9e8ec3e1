/** Directly started project processes of procmgr.go: Start, Stop and the Wait goroutine. */
module ProcTracking {
  import opened Wrappers

  type Project = string
  type LaunchId = nat

  /** What Start finds when it is asked to launch: nothing to run or no memory, or a process. */
  datatype LaunchOutcome = Refused | Launched

  class ProcManager {
    /** procs: which launch is tracked for a project. A tracked entry always has a process. */
    var procs: map<Project, LaunchId>

    constructor ()
      ensures procs == map[]
    {
      procs := map[];
    }

    /** Start runs under the lock from end to end; launch is the process the operating system would give. */
    method Start(project: Project, outcome: LaunchOutcome, launch: LaunchId) returns (ok: bool)
      modifies this
      ensures procs == Tracked(old(procs), project, outcome, launch)
      ensures ok == (project in old(procs) || outcome.Launched?)
    {
      if project in procs {
        return true;
      }
      if outcome.Refused? {
        return false;
      }
      procs := procs[project := launch];
      ok := true;
    }

    /** The Wait goroutine of a project, once its process has ended. */
    method Reap(project: Project)
      modifies this
      ensures procs == old(procs) - {project}
    {
      procs := procs - {project};
    }

    /** The first region of Stop: which process to kill and wait for, if one is tracked. */
    method StopLookup(project: Project) returns (launch: Option<LaunchId>)
      ensures launch == if project in procs then Some(procs[project]) else None
    {
      if project !in procs {
        return None;
      }
      launch := Some(procs[project]);
    }

    /** The last region of Stop, after the process it saw has ended. */
    method StopForget(project: Project)
      modifies this
      ensures procs == old(procs) - {project}
    {
      procs := procs - {project};
    }
  }

  function Tracked(procs: map<Project, LaunchId>, project: Project, outcome: LaunchOutcome,
      launch: LaunchId): map<Project, LaunchId> {
    if project in procs || outcome.Refused? then procs else procs[project := launch]
  }

  // ---- every interleaving ------------------------------------------------------------------------------

  /** A process is alive, has ended, was reaped under the lock, or has its done channel closed. */
  datatype Phase = Alive | Ended | Reaped | Closed

  datatype Launch = Launch(project: Project, phase: Phase) {
    predicate Unreaped() { phase.Alive? || phase.Ended? }
  }

  /** A call of Stop that saw a process: waiting for its done channel, past it, or finished. */
  datatype Stopper = Waiting(project: Project, launch: LaunchId) | Forgetting(project: Project, launch: LaunchId)
      | Finished

  datatype State = State(procs: map<Project, LaunchId>, launches: seq<Launch>, stoppers: seq<Stopper>)

  const INIT: State := State(map[], [], [])

  datatype Action =
    | Start(project: Project, outcome: LaunchOutcome)
    | Exit(l: LaunchId)
    | Reap(l: LaunchId)
    | Close(l: LaunchId)
    | StopLookup(project: Project)
    | StopWaited(k: nat)
    | StopForget(k: nat)

  predicate Enabled(s: State, a: Action) {
    match a
    case Start(_, _) => true
    case Exit(l) => l < |s.launches| && s.launches[l].phase.Alive?
    case Reap(l) => l < |s.launches| && s.launches[l].phase.Ended?
    case Close(l) => l < |s.launches| && s.launches[l].phase.Reaped?
    case StopLookup(_) => true
    case StopWaited(k) => k < |s.stoppers| && s.stoppers[k].Waiting? && s.stoppers[k].launch < |s.launches|
                          && s.launches[s.stoppers[k].launch].phase.Closed?
    case StopForget(k) => k < |s.stoppers| && s.stoppers[k].Forgetting?
  }

  function SetPhase(s: State, l: LaunchId, p: Phase): State
    requires l < |s.launches|
  {
    s.(launches := s.launches[l := s.launches[l].(phase := p)])
  }

  predicate Launches(s: State, a: Action) {
    a.Start? && a.project !in s.procs && a.outcome.Launched?
  }

  function Step(s: State, a: Action): State
    requires Enabled(s, a)
  {
    match a
    case Start(project, outcome) =>
      s.(procs := Tracked(s.procs, project, outcome, |s.launches|),
         launches := if Launches(s, a) then s.launches + [Launch(project, Alive)] else s.launches)
    case Exit(l) => SetPhase(s, l, Ended)
    case Reap(l) => SetPhase(s, l, Reaped).(procs := s.procs - {s.launches[l].project})
    case Close(l) => SetPhase(s, l, Closed)
    case StopLookup(project) =>
      if project in s.procs then s.(stoppers := s.stoppers + [Waiting(project, s.procs[project])]) else s
    case StopWaited(k) => s.(stoppers := s.stoppers[k := Forgetting(s.stoppers[k].project, s.stoppers[k].launch)])
    case StopForget(k) => s.(stoppers := s.stoppers[k := Finished], procs := s.procs - {s.stoppers[k].project})
  }

  /** A run from s on. */
  predicate RunFrom(s: State, states: seq<State>, actions: seq<Action>) {
    && |states| == |actions| + 1 && states[0] == s
    && forall i | 0 <= i < |actions| :: Enabled(states[i], actions[i]) && states[i + 1] == Step(states[i], actions[i])
  }

  predicate Run(states: seq<State>, actions: seq<Action>) {
    RunFrom(INIT, states, actions)
  }

  /** A project has at most one process that is not reaped, and procs tracks exactly those. */
  predicate TrackInv(s: State) {
    && (forall p | p in s.procs ::
          s.procs[p] < |s.launches| && s.launches[s.procs[p]].project == p && s.launches[s.procs[p]].Unreaped())
    && (forall l | 0 <= l < |s.launches| && s.launches[l].Unreaped() ::
          s.launches[l].project in s.procs && s.procs[s.launches[l].project] == l)
  }

  /** Every step but the last region of Stop keeps processes and entries in step; that one does so
      exactly when it finds nothing to delete, because what it deletes is not checked to be the
      process it waited for. */
  lemma StepTracks(s: State, a: Action)
    requires TrackInv(s) && Enabled(s, a)
    ensures TrackInv(Step(s, a)) <==> !(a.StopForget? && s.stoppers[a.k].project in s.procs)
  {
    var s' := Step(s, a);
    if a.StopForget? && s.stoppers[a.k].project in s.procs {
      var l := s.procs[s.stoppers[a.k].project];
      assert s'.launches[l].Unreaped() && s'.launches[l].project !in s'.procs;
    }
  }

  /** A Stop of the project has seen a process and has not yet reached its final delete. */
  predicate Stopping(s: State, p: Project) {
    exists k | 0 <= k < |s.stoppers| :: !s.stoppers[k].Finished? && s.stoppers[k].project == p
  }

  /** No Start that would launch falls between a Stop's wait and its final delete. */
  predicate Disciplined(states: seq<State>, actions: seq<Action>)
    requires |states| == |actions| + 1
  {
    forall i | 0 <= i < |actions| && Launches(states[i], actions[i]) :: !Stopping(states[i], actions[i].project)
  }

  /** A pending Stop leaves room for no process of its project but the one it waits for. */
  predicate QuietInv(s: State) {
    forall k | 0 <= k < |s.stoppers| && !s.stoppers[k].Finished? ::
      && s.stoppers[k].launch < |s.launches|
      && s.launches[s.stoppers[k].launch].project == s.stoppers[k].project
      && (s.stoppers[k].project in s.procs ==> s.procs[s.stoppers[k].project] == s.stoppers[k].launch)
      && (s.stoppers[k].Forgetting? ==> s.launches[s.stoppers[k].launch].phase.Closed?)
  }

  lemma StepQuiet(s: State, a: Action)
    requires TrackInv(s) && QuietInv(s) && Enabled(s, a)
    requires Launches(s, a) ==> !Stopping(s, a.project)
    ensures QuietInv(Step(s, a)) && TrackInv(Step(s, a))
  {
    StepTracks(s, a);
    hide TrackInv, Stopping;
    if Launches(s, a) {
      NoPending(s, a.project);
    }
  }

  lemma NoPending(s: State, p: Project)
    requires !Stopping(s, p)
    ensures forall k | 0 <= k < |s.stoppers| && !s.stoppers[k].Finished? :: s.stoppers[k].project != p
  {}

  lemma {:induction false} RunQuiet(states: seq<State>, actions: seq<Action>, i: nat)
    requires Run(states, actions) && i < |states| && Disciplined(states, actions)
    ensures TrackInv(states[i]) && QuietInv(states[i])
  {
    hide TrackInv, QuietInv, Stopping, Step;
    if i > 0 {
      RunQuiet(states, actions, i - 1);
      StepQuiet(states[i - 1], actions[i - 1]);
    } else {
      InitTracks();
    }
  }

  lemma InitTracks()
    ensures TrackInv(INIT) && QuietInv(INIT)
  {}

  // ---- the main results ------------------------------------------------------------------------------------

  /** In every run where no launching Start falls between a Stop's wait and its delete, a project has at
      most one live process, every live process is tracked under its project, and a pending delete finds
      nothing, however exits race with Stop. */
  lemma OneTrackedProcess(states: seq<State>, actions: seq<Action>, i: nat)
    requires Run(states, actions) && i < |states| && Disciplined(states, actions)
    ensures var s := states[i];
            && (forall l, l' | 0 <= l < |s.launches| && 0 <= l' < |s.launches|
                               && s.launches[l].phase.Alive? && s.launches[l'].phase.Alive? ::
                  s.launches[l].project == s.launches[l'].project ==> l == l')
            && (forall l | 0 <= l < |s.launches| && s.launches[l].phase.Alive? ::
                  s.launches[l].project in s.procs && s.procs[s.launches[l].project] == l)
            && (forall k | 0 <= k < |s.stoppers| && s.stoppers[k].Forgetting? :: s.stoppers[k].project !in s.procs)
  {
    RunQuiet(states, actions, i);
  }

  /** A final delete finds an entry it should not remove. */
  predicate DeletesOther(s: State, a: Action) {
    a.StopForget? && a.k < |s.stoppers| && s.stoppers[a.k].Forgetting? && s.stoppers[a.k].project in s.procs
  }

  /** For any run whatever: processes and entries are in step throughout exactly when no final delete of
      a Stop ever finds an entry. */
  lemma TrackedExactly(states: seq<State>, actions: seq<Action>)
    requires Run(states, actions)
    ensures (forall i | 0 <= i < |states| :: TrackInv(states[i])) <==>
            (forall i | 0 <= i < |actions| :: !DeletesOther(states[i], actions[i]))
  {
    hide TrackInv, Step;
    if forall i | 0 <= i < |actions| :: !DeletesOther(states[i], actions[i]) {
      forall i | 0 <= i < |states| ensures TrackInv(states[i]) { TrackedUpTo(states, actions, i); }
    } else if forall i | 0 <= i < |states| :: TrackInv(states[i]) {
      var i :| 0 <= i < |actions| && DeletesOther(states[i], actions[i]);
      StepTracks(states[i], actions[i]);
      assert !TrackInv(states[i + 1]);
    }
  }

  lemma {:induction false} TrackedUpTo(states: seq<State>, actions: seq<Action>, i: nat)
    requires Run(states, actions) && i < |states|
    requires forall j | 0 <= j < |actions| :: !DeletesOther(states[j], actions[j])
    ensures TrackInv(states[i])
  {
    hide TrackInv, Step;
    if i > 0 {
      TrackedUpTo(states, actions, i - 1);
      assert !DeletesOther(states[i - 1], actions[i - 1]);
      StepTracks(states[i - 1], actions[i - 1]);
    } else {
      InitTracks();
    }
  }

  /** A live process that nothing tracks under its project. */
  predicate Untracked(s: State) {
    exists l | 0 <= l < |s.launches| ::
      s.launches[l].phase.Alive?
      && !(s.launches[l].project in s.procs && s.procs[s.launches[l].project] == l)
  }

  /** A continuation that launches a process of p, launches nothing more, and loses track of a process. */
  predicate Loses(s: State, p: Project, states: seq<State>, actions: seq<Action>) {
    && RunFrom(s, states, actions) && actions != [] && actions[0] == Start(p, Launched)
    && (forall i | 0 < i < |actions| :: !Launches(states[i], actions[i]))
    && Untracked(states[|actions|])
  }

  /** A launch can lead to an untracked process exactly when, as it starts, a Stop of its project has yet to
      reach its final delete. */
  lemma LaunchLosesTrack(s: State, p: Project)
    requires TrackInv(s) && QuietInv(s) && p !in s.procs
    ensures (exists states, actions :: Loses(s, p, states, actions)) <==> Stopping(s, p)
  {
    hide TrackInv, QuietInv, Stopping, Step, Enabled, Untracked;
    if Stopping(s, p) {
      var states, actions := StopLosesLaunch(s, p);
      assert Loses(s, p, states, actions);
    } else if states, actions :| Loses(s, p, states, actions) {
      NothingLost(s, p, states, actions, |actions|);
      TrackedIsTracked(states[|actions|]);
    }
  }

  lemma TrackedIsTracked(s: State)
    requires TrackInv(s)
    ensures !Untracked(s)
  {}

  lemma {:induction false} NothingLost(s: State, p: Project, states: seq<State>, actions: seq<Action>, j: nat)
    requires TrackInv(s) && QuietInv(s) && !Stopping(s, p) && RunFrom(s, states, actions) && j < |states|
    requires actions != [] && actions[0] == Start(p, Launched)
    requires forall i | 0 < i < |actions| :: !Launches(states[i], actions[i])
    ensures TrackInv(states[j]) && QuietInv(states[j])
  {
    hide TrackInv, QuietInv, Stopping, Step, Enabled;
    if j > 0 {
      NothingLost(s, p, states, actions, j - 1);
      StepQuiet(states[j - 1], actions[j - 1]);
    }
  }

  lemma StopLosesLaunch(s: State, p: Project) returns (states: seq<State>, actions: seq<Action>)
    requires TrackInv(s) && QuietInv(s) && p !in s.procs && Stopping(s, p)
    ensures Loses(s, p, states, actions)
  {
    var k :| 0 <= k < |s.stoppers| && !s.stoppers[k].Finished? && s.stoppers[k].project == p;
    var l := s.stoppers[k].launch;
    WaitIsOver(s, k);
    hide TrackInv, QuietInv, Step, Enabled, Untracked;
    var s1 := StartBeside(s, p);
    if s.stoppers[k].Forgetting? {
      var s2 := ForgetLast(s1, k, p);
      states, actions := [s, s1, s2], [Start(p, Launched), StopForget(k)];
    } else if s.launches[l].phase.Closed? {
      var s2 := EndWait(s1, k, l);
      var s3 := ForgetLast(s2, k, p);
      states, actions := [s, s1, s2, s3], [Start(p, Launched), StopWaited(k), StopForget(k)];
    } else {
      var s2 := CloseOld(s1, k, l);
      var s3 := EndWait(s2, k, l);
      var s4 := ForgetLast(s3, k, p);
      states, actions := [s, s1, s2, s3, s4], [Start(p, Launched), Close(l), StopWaited(k), StopForget(k)];
    }
  }

  /** With no entry left for its project, the process that a Stop waits for has been reaped. */
  lemma WaitIsOver(s: State, k: nat)
    requires TrackInv(s) && QuietInv(s) && k < |s.stoppers| && !s.stoppers[k].Finished?
    requires s.stoppers[k].project !in s.procs
    ensures s.stoppers[k].launch < |s.launches|
    ensures var phase := s.launches[s.stoppers[k].launch].phase; phase.Reaped? || phase.Closed?
  {}

  /** The last launch is alive and tracked under p, and the k-th Stop of p is not done. */
  predicate Beside(s: State, k: nat, p: Project) {
    && s.launches != [] && s.launches[|s.launches| - 1] == Launch(p, Alive)
    && k < |s.stoppers| && !s.stoppers[k].Finished? && s.stoppers[k].project == p
  }

  lemma StartBeside(s: State, p: Project) returns (s': State)
    requires p !in s.procs
    ensures Enabled(s, Start(p, Launched)) && s' == Step(s, Start(p, Launched))
    ensures s' == State(s.procs[p := |s.launches|], s.launches + [Launch(p, Alive)], s.stoppers)
  {
    s' := Step(s, Start(p, Launched));
  }

  lemma CloseOld(s: State, k: nat, l: LaunchId) returns (s': State)
    requires l < |s.launches| && s.launches[l].phase.Reaped?
    ensures Enabled(s, Close(l)) && s' == Step(s, Close(l)) && !Launches(s, Close(l))
    ensures s' == s.(launches := s.launches[l := s.launches[l].(phase := Closed)])
  {
    s' := Step(s, Close(l));
  }

  lemma EndWait(s: State, k: nat, l: LaunchId) returns (s': State)
    requires k < |s.stoppers| && s.stoppers[k].Waiting? && s.stoppers[k].launch == l
    requires l < |s.launches| && s.launches[l].phase.Closed?
    ensures Enabled(s, StopWaited(k)) && s' == Step(s, StopWaited(k)) && !Launches(s, StopWaited(k))
    ensures s' == s.(stoppers := s.stoppers[k := Forgetting(s.stoppers[k].project, l)])
  {
    s' := Step(s, StopWaited(k));
  }

  lemma ForgetLast(s: State, k: nat, p: Project) returns (s': State)
    requires Beside(s, k, p) && s.stoppers[k].Forgetting?
    ensures Enabled(s, StopForget(k)) && s' == Step(s, StopForget(k)) && !Launches(s, StopForget(k))
    ensures Untracked(s')
  {
    s' := Step(s, StopForget(k));
    assert s'.launches[|s.launches| - 1] == Launch(p, Alive) && p !in s'.procs;
  }

  /** And it does happen: a Start just before the final delete of a Stop leaves a process that nothing
      tracks, and the next Start gives the project a second live one. */
  lemma UntrackedRun(p: Project) returns (states: seq<State>, actions: seq<Action>)
    ensures Run(states, actions)
    ensures var s := states[|actions|];
            |s.launches| == 3 && s.launches[1] == Launch(p, Alive) && s.launches[2] == Launch(p, Alive)
  {
    hide Step, Enabled;
    var running := UntrackedExit(p);
    var stopped := UntrackedStop(p, running[3]);
    var again := UntrackedAgain(p, stopped[2]);
    actions := [Start(p, Launched), StopLookup(p), Exit(0), Reap(0), Close(0), StopWaited(0),
                Start(p, Launched), StopForget(0), Start(p, Launched)];
    states := running + stopped + again;
  }

  lemma UntrackedExit(p: Project) returns (s: seq<State>)
    ensures |s| == 4 && s[0] == INIT
    ensures Enabled(s[0], Start(p, Launched)) && s[1] == Step(s[0], Start(p, Launched))
    ensures Enabled(s[1], StopLookup(p)) && s[2] == Step(s[1], StopLookup(p))
    ensures Enabled(s[2], Exit(0)) && s[3] == Step(s[2], Exit(0))
    ensures s[3] == State(map[p := 0], [Launch(p, Ended)], [Waiting(p, 0)])
  {
    s := [INIT,
          State(map[p := 0], [Launch(p, Alive)], []),
          State(map[p := 0], [Launch(p, Alive)], [Waiting(p, 0)]),
          State(map[p := 0], [Launch(p, Ended)], [Waiting(p, 0)])];
  }

  lemma UntrackedStop(p: Project, start: State) returns (s: seq<State>)
    requires start == State(map[p := 0], [Launch(p, Ended)], [Waiting(p, 0)])
    ensures |s| == 3
    ensures Enabled(start, Reap(0)) && s[0] == Step(start, Reap(0))
    ensures Enabled(s[0], Close(0)) && s[1] == Step(s[0], Close(0))
    ensures Enabled(s[1], StopWaited(0)) && s[2] == Step(s[1], StopWaited(0))
    ensures s[2] == State(map[], [Launch(p, Closed)], [Forgetting(p, 0)])
  {
    s := [State(map[], [Launch(p, Reaped)], [Waiting(p, 0)]),
          State(map[], [Launch(p, Closed)], [Waiting(p, 0)]),
          State(map[], [Launch(p, Closed)], [Forgetting(p, 0)])];
    assert map[p := 0] - {p} == map[];
  }

  lemma UntrackedAgain(p: Project, start: State) returns (s: seq<State>)
    requires start == State(map[], [Launch(p, Closed)], [Forgetting(p, 0)])
    ensures |s| == 3
    ensures Enabled(start, Start(p, Launched)) && s[0] == Step(start, Start(p, Launched))
    ensures Enabled(s[0], StopForget(0)) && s[1] == Step(s[0], StopForget(0))
    ensures Enabled(s[1], Start(p, Launched)) && s[2] == Step(s[1], Start(p, Launched))
    ensures s[2].launches == [Launch(p, Closed), Launch(p, Alive), Launch(p, Alive)]
  {
    s := [State(map[p := 1], [Launch(p, Closed), Launch(p, Alive)], [Forgetting(p, 0)]),
          State(map[], [Launch(p, Closed), Launch(p, Alive)], [Finished]),
          State(map[p := 2], [Launch(p, Closed), Launch(p, Alive), Launch(p, Alive)], [Finished])];
    assert map[p := 1] - {p} == map[];
  }
}
