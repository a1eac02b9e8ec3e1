/** What is left of a shared service once its last reference is gone: the manager of procmgr.go together with
    the startShared calls that are still to come. AttachServices unlocks before it calls startShared, and the
    health monitor calls it from a snapshot of the map. */
module LateStarts {
  import opened Wrappers
  import opened SharedServices

  datatype Sys = Sys(s: State, pending: multiset<InstanceId>)

  const START: Sys := Sys(INIT, multiset{})

  datatype Event =
    | Do(a: Action)
    | Look(n: Name)            // the health monitor puts a referenced service into its snapshot
    | Skip(st: InstanceId)     // and later finds it running

  ghost predicate Can(x: Sys, e: Event) {
    match e
    case Do(a) => Enabled(x.s, a) && (a.Claim? ==> a.st in x.pending)
    case Look(n) => x.s.m.Valid() && n in x.s.m.services && x.s.m.instances[x.s.m.services[n]].refs != {}
    case Skip(st) => st in x.pending
  }

  ghost function Next(x: Sys, e: Event): Sys
    requires Can(x, e)
  {
    match e
    case Do(a) => Sys(Step(x.s, a), PendingAfter(x, a))
    case Look(n) => x.(pending := x.pending + multiset{x.s.m.services[n]})
    case Skip(st) => x.(pending := x.pending - multiset{st})
  }

  /** An attach that is the first owes a startShared call; a claim is one. */
  ghost function PendingAfter(x: Sys, a: Action): multiset<InstanceId>
    requires Enabled(x.s, a)
  {
    match a
    case Attach(project, d) =>
      var r := Attached(x.s.m, project, d);
      if r.first then x.pending + multiset{r.st} else x.pending
    case Claim(st) => x.pending - multiset{st}
    case _ => x.pending
  }

  /** A startShared call is owed for the new instance that an attach makes where no instance of the name has a
      reference, and for a service that the monitor looks at; it is paid by a claim, or skipped. */
  lemma OwedCalls(x: Sys, e: Event, st: InstanceId)
    requires Can(x, e) && RefInv(x.s)
    ensures var more := match e
                        case Do(Attach(_, d)) =>
                          st == |x.s.m.instances|
                          && forall i | 0 <= i < |x.s.m.instances| && x.s.m.instances[i].decl.name == d.name ::
                               x.s.m.instances[i].refs == {}
                        case Look(n) => st == x.s.m.services[n]
                        case _ => false;
            var fewer := e == Do(Claim(st)) || e == Skip(st);
            Next(x, e).pending[st] == x.pending[st] + (if more then 1 else 0) - (if fewer then 1 else 0)
  {
    hide Step;
    if e.Do? && e.a.Attach? {
      StartsOnFirstReference(x.s, e.a.project, e.a.d);
      if e.a.d.name in x.s.m.services {
        assert InMap(x.s.m, x.s.m.services[e.a.d.name]);
      }
    }
  }

  datatype Path = Path(xs: seq<Sys>, es: seq<Event>)

  ghost predicate From(x: Sys, p: Path) {
    && |p.xs| == |p.es| + 1 && p.xs[0] == x
    && forall i | 0 <= i < |p.es| :: Can(p.xs[i], p.es[i]) && p.xs[i + 1] == Next(p.xs[i], p.es[i])
  }

  function End(p: Path): Sys {
    if p.xs == [] then START else p.xs[|p.xs| - 1]
  }

  lemma Extended(x: Sys, p: Path, e: Event) returns (p': Path)
    requires From(x, p) && Can(End(p), e)
    ensures From(x, p') && End(p') == Next(End(p), e) && p'.es == p.es + [e]
  {
    hide Can, Next;
    p' := Path(p.xs + [Next(End(p), e)], p.es + [e]);
  }

  /** The protocols of the manager hold along every path. */
  lemma {:induction false} PathKeeps(x: Sys, p: Path, i: nat)
    requires From(x, p) && i < |p.xs| && LaunchInv(x.s) && RefInv(x.s)
    ensures LaunchInv(p.xs[i].s) && RefInv(p.xs[i].s)
  {
    hide LaunchInv, RefInv, Step, Enabled;
    if i > 0 {
      PathKeeps(x, p, i - 1);
      EventKeeps(p.xs[i - 1], p.es[i - 1]);
    }
  }

  lemma EventKeeps(x: Sys, e: Event)
    requires Can(x, e) && LaunchInv(x.s) && RefInv(x.s)
    ensures LaunchInv(Next(x, e).s) && RefInv(Next(x, e).s)
  {
    hide LaunchInv, RefInv, Step, Enabled;
    if e.Do? {
      LaunchStep(x.s, e.a);
      RefStep(x.s, e.a);
    }
  }

  // ---- a child that outlives the call that should have stopped it -----------------------------------------

  /** A launch of the instance is on its way to a live child: it may still spawn one, or has one that the
      instance does not name yet. */
  ghost predicate OnItsWay(s: State, st: InstanceId) {
    exists l :: 0 <= l < |s.launches| && s.launches[l].inst == st
                && (s.launches[l].phase.Claimed? || s.launches[l].phase == Spawned(true))
  }

  ghost predicate LiveChild(s: State, st: InstanceId) {
    exists l :: 0 <= l < |s.launches| && s.launches[l].inst == st && s.launches[l].Live()
  }

  /** The k-th stopShared call has returned, and yet the instance has a live child. */
  ghost predicate Outlived(s: State, k: nat, st: InstanceId) {
    k < |s.stoppers| && s.stoppers[k] == Returned(st) && LiveChild(s, st)
  }

  /** A continuation in which the k-th call reads first, and a child of its instance outlives it. */
  ghost predicate Escapes(x: Sys, k: nat, st: InstanceId, p: Path) {
    From(x, p) && p.es != [] && p.es[0] == Do(StopRead(k)) && Outlived(End(p).s, k, st)
  }

  /** Whatever all the threads do from here on: a child can outlive a stopShared call exactly when, as the call
      reads the instance, a launch of it is on its way or a startShared call for it is still to come. */
  lemma StopIsFinal(x: Sys, k: nat)
    requires LaunchInv(x.s) && RefInv(x.s) && Enabled(x.s, StopRead(k))
    ensures var st := x.s.stoppers[k].inst;
            (exists p :: Escapes(x, k, st, p)) <==> OnItsWay(x.s, st) || st in x.pending
  {
    hide LaunchInv, RefInv, Step, Enabled, OnItsWay, Outlived, From;
    CanRead(x.s, k);
    var st := x.s.stoppers[k].inst;
    if OnItsWay(x.s, st) {
      var p := LaunchEscapes(x, k);
    } else if st in x.pending {
      var p := CallEscapes(x, k);
    } else if p :| Escapes(x, k, st, p) {
      NothingEscapes(x, k, p);
    }
  }

  lemma CanRead(s: State, k: nat)
    requires Enabled(s, StopRead(k))
    ensures k < |s.stoppers| && s.stoppers[k].Called? && s.m.Valid() && s.stoppers[k].inst < |s.m.instances|
  {}

  // ---- nothing on its way, nothing to come ----------------------------------------------------------------

  /** The k-th call has read the instance; of its launches only the one that was read, and children that
      have exited, are still in flight. */
  ghost predicate Quiet(s: State, k: nat, st: InstanceId) {
    && k < |s.stoppers| && s.stoppers[k].inst == st && !s.stoppers[k].Called?
    && forall l | 0 <= l < |s.launches| && s.launches[l].inst == st && s.launches[l].InFlight() ::
         (s.stoppers[k].Read? && s.stoppers[k].cmd == Some(l))
         || s.launches[l].phase == Spawned(false) || s.launches[l].phase == Published(false)
  }

  lemma QuietAfterRead(s: State, k: nat)
    requires LaunchInv(s) && Enabled(s, StopRead(k)) && !OnItsWay(s, s.stoppers[k].inst)
    ensures Quiet(Step(s, StopRead(k)), k, s.stoppers[k].inst)
  {
    hide HasLaunch;
  }

  lemma QuietStep(s: State, a: Action, k: nat, st: InstanceId)
    requires LaunchInv(s) && Enabled(s, a) && Quiet(s, k, st) && a != Claim(st)
    ensures Quiet(Step(s, a), k, st)
  {
    hide HasLaunch;
  }

  lemma QuietIsSafe(s: State, k: nat, st: InstanceId)
    requires Quiet(s, k, st)
    ensures !Outlived(s, k, st)
  {}

  /** The instance has no reference, and nobody is about to start it. */
  ghost predicate Forgotten(x: Sys, st: InstanceId) {
    st < |x.s.m.instances| && x.s.m.instances[st].refs == {} && st !in x.pending
  }

  /** An instance whose stopShared call was made has left the map for good. */
  lemma StoppedHasNoRefs(s: State, k: nat)
    requires RefInv(s) && k < |s.stoppers|
    ensures var st := s.stoppers[k].inst; st < |s.m.instances| && s.m.instances[st].refs == {}
  {
    assert s.stopped[k] in s.stopped;
  }

  lemma StaysForgotten(x: Sys, e: Event, st: InstanceId)
    requires Can(x, e) && RefInv(x.s) && Forgotten(x, st)
    ensures Forgotten(Next(x, e), st)
  {
    match e {
      case Do(a) =>
        NoRefsRegained(x.s, a, st);
        AttachElsewhere(x, a, st);
      case Look(n) =>
      case Skip(_) =>
    }
  }

  lemma AttachElsewhere(x: Sys, a: Action, st: InstanceId)
    requires Enabled(x.s, a) && RefInv(x.s) && Forgotten(x, st)
    ensures st !in PendingAfter(x, a)
  {
    hide Step;
    if a.Attach? && a.d.name in x.s.m.services {
      assert InMap(x.s.m, x.s.m.services[a.d.name]);
    }
  }

  lemma {:induction false} StaysSafe(x: Sys, k: nat, p: Path, j: nat)
    requires LaunchInv(x.s) && RefInv(x.s) && From(x, p) && 1 <= j < |p.xs| && p.es[0] == Do(StopRead(k))
    requires Enabled(x.s, StopRead(k)) && !OnItsWay(x.s, x.s.stoppers[k].inst) && x.s.stoppers[k].inst !in x.pending
    ensures Quiet(p.xs[j].s, k, x.s.stoppers[k].inst) && Forgotten(p.xs[j], x.s.stoppers[k].inst)
  {
    hide LaunchInv, RefInv, Step, Enabled, OnItsWay, Quiet, Forgotten, PendingAfter;
    CanRead(x.s, k);
    var st := x.s.stoppers[k].inst;
    if j == 1 {
      QuietAfterRead(x.s, k);
      ForgottenAtRead(x, k);
    } else {
      StaysSafe(x, k, p, j - 1);
      PathKeeps(x, p, j - 1);
      var y, e := p.xs[j - 1], p.es[j - 1];
      NoClaim(y, e, st);
      if e.Do? {
        QuietStep(y.s, e.a, k, st);
      }
      StaysForgotten(y, e, st);
    }
  }

  lemma NoClaim(x: Sys, e: Event, st: InstanceId)
    requires Can(x, e) && Forgotten(x, st)
    ensures e != Do(Claim(st))
  {}

  lemma ForgottenAtRead(x: Sys, k: nat)
    requires RefInv(x.s) && Enabled(x.s, StopRead(k)) && x.s.stoppers[k].inst !in x.pending
    ensures Can(x, Do(StopRead(k))) && Forgotten(Next(x, Do(StopRead(k))), x.s.stoppers[k].inst)
  {
    StoppedHasNoRefs(x.s, k);
  }

  lemma NothingEscapes(x: Sys, k: nat, p: Path)
    requires LaunchInv(x.s) && RefInv(x.s) && Enabled(x.s, StopRead(k))
    requires !OnItsWay(x.s, x.s.stoppers[k].inst) && x.s.stoppers[k].inst !in x.pending
    ensures !Escapes(x, k, x.s.stoppers[k].inst, p)
  {
    hide LaunchInv, RefInv, Step, Enabled, OnItsWay, Quiet, Can, Next, Outlived;
    CanRead(x.s, k);
    if From(x, p) && p.es != [] && p.es[0] == Do(StopRead(k)) {
      StaysSafe(x, k, p, |p.es|);
      QuietIsSafe(End(p).s, k, x.s.stoppers[k].inst);
    }
  }

  // ---- a launch on its way --------------------------------------------------------------------------------

  lemma LaunchEscapes(x: Sys, k: nat) returns (p: Path)
    requires LaunchInv(x.s) && Enabled(x.s, StopRead(k)) && OnItsWay(x.s, x.s.stoppers[k].inst)
    ensures Escapes(x, k, x.s.stoppers[k].inst, p)
  {
    hide Step, Enabled, LaunchInv, From;
    CanRead(x.s, k);
    var l := UnpublishedLaunch(x.s, k);
    p := ReadFirst(x, k);
    p := ReturnNow(x, p, k);
    if x.s.launches[l].phase.Claimed? {
      p := SpawnLate(x, p, k, l);
    } else {
      assert LiveChild(End(p).s, x.s.stoppers[k].inst) by { assert End(p).s.launches[l].Live(); }
    }
  }

  /** The launch that is on its way is the only one, so the instance names none. */
  lemma UnpublishedLaunch(s: State, k: nat) returns (l: LaunchId)
    requires LaunchInv(s) && Enabled(s, StopRead(k)) && OnItsWay(s, s.stoppers[k].inst)
    ensures l < |s.launches| && s.launches[l].inst == s.stoppers[k].inst
    ensures s.launches[l].phase.Claimed? || s.launches[l].phase == Spawned(true)
    ensures s.m.instances[s.stoppers[k].inst].cmd.None?
  {
    hide HasLaunch;
    var st := s.stoppers[k].inst;
    l :| 0 <= l < |s.launches| && s.launches[l].inst == st
         && (s.launches[l].phase.Claimed? || s.launches[l].phase == Spawned(true));
  }

  /** A path that the k-th call's read begins. */
  ghost predicate Begun(x: Sys, p: Path, k: nat) {
    From(x, p) && p.es != [] && p.es[0] == Do(StopRead(k)) && End(p).s.m.Valid()
  }

  lemma ReadFirst(x: Sys, k: nat) returns (p: Path)
    requires Enabled(x.s, StopRead(k))
    ensures Begun(x, p, k) && End(p).pending == x.pending
    ensures var st := x.s.stoppers[k].inst; var svc := x.s.m.instances[st];
            End(p).s == x.s.(stoppers := x.s.stoppers[k := Read(st, svc.cmd, svc.done)])
  {
    p := Extended(x, Path([x], []), Do(StopRead(k)));
  }

  lemma ReturnNow(x: Sys, p: Path, k: nat) returns (p': Path)
    requires Begun(x, p, k) && Enabled(End(p).s, StopReturn(k))
    ensures var y := End(p);
            && Begun(x, p', k) && End(p').pending == y.pending
            && End(p').s == y.s.(stoppers := y.s.stoppers[k := Returned(y.s.stoppers[k].inst)])
  {
    p' := Extended(x, p, Do(StopReturn(k)));
  }

  lemma SpawnLate(x: Sys, p: Path, k: nat, l: LaunchId) returns (p': Path)
    requires Begun(x, p, k) && k < |End(p).s.stoppers| && l < |End(p).s.launches|
    requires End(p).s.stoppers[k] == Returned(End(p).s.launches[l].inst) && End(p).s.launches[l].phase.Claimed?
    ensures Escapes(x, k, End(p).s.launches[l].inst, p')
  {
    hide From;
    p' := Extended(x, p, Do(Spawn(l)));
    assert End(p').s.launches[l].Live();
  }

  // ---- a call to come -------------------------------------------------------------------------------------

  /** The k-th call has returned, its instance is idle, and a startShared call for it is still to come. */
  ghost predicate Drained(x: Sys, p: Path, k: nat, st: InstanceId) {
    && Begun(x, p, k) && k < |End(p).s.stoppers| && End(p).s.stoppers[k] == Returned(st)
    && st < |End(p).s.m.instances| && !End(p).s.m.Busy(st) && st in End(p).pending
  }

  lemma CallEscapes(x: Sys, k: nat) returns (p: Path)
    requires LaunchInv(x.s) && Enabled(x.s, StopRead(k)) && !OnItsWay(x.s, x.s.stoppers[k].inst)
    requires x.s.stoppers[k].inst in x.pending
    ensures Escapes(x, k, x.s.stoppers[k].inst, p)
  {
    hide Step, Enabled, LaunchInv, From, OnItsWay, Begun;
    CanRead(x.s, k);
    var st := x.s.stoppers[k].inst;
    var svc := x.s.m.instances[st];
    p := ReadFirst(x, k);
    if svc.cmd.Some? {
      PublishedLaunch(x.s, st);
      p := DrainPublished(x, p, k, svc.cmd.value);
    } else {
      p := ReturnAtOnce(x, p, k);
      if svc.starting {
        var l := ExitedLaunch(x.s, st);
        p := DrainExited(x, p, k, l);
      }
    }
    p := StartAgain(x, p, k, st);
  }

  lemma PublishedLaunch(s: State, st: InstanceId)
    requires LaunchInv(s) && st < |s.m.instances| && s.m.instances[st].cmd.Some?
    ensures var l := s.m.instances[st].cmd.value;
            && l < |s.launches| && s.launches[l].inst == st && s.launches[l].phase.Published?
            && s.m.instances[st].done == Some(l)
  {
    hide HasLaunch;
  }

  /** Without a published launch and without one on its way, what keeps the instance busy has exited. */
  lemma ExitedLaunch(s: State, st: InstanceId) returns (l: LaunchId)
    requires LaunchInv(s) && st < |s.m.instances| && s.m.instances[st].starting && s.m.instances[st].cmd.None?
    requires !OnItsWay(s, st)
    ensures l < |s.launches| && s.launches[l] == Launch(st, Spawned(false))
  {
    assert HasLaunch(s, st);
    l :| 0 <= l < |s.launches| && s.launches[l].inst == st && s.launches[l].InFlight();
  }

  lemma ReturnAtOnce(x: Sys, p: Path, k: nat) returns (p': Path)
    requires Begun(x, p, k) && k < |End(p).s.stoppers| && End(p).s.stoppers[k].Read?
    requires End(p).s.stoppers[k].cmd.None?
    ensures var y := End(p);
            && Begun(x, p', k) && End(p').pending == y.pending
            && End(p').s == y.s.(stoppers := y.s.stoppers[k := Returned(y.s.stoppers[k].inst)])
  {
    hide From;
    p' := ReturnNow(x, p, k);
  }

  lemma DrainPublished(x: Sys, p: Path, k: nat, l: LaunchId) returns (p': Path)
    requires Begun(x, p, k) && k < |End(p).s.stoppers| && l < |End(p).s.launches|
    requires var s := End(p).s; var st := s.launches[l].inst;
             && s.stoppers[k] == Read(st, Some(l), Some(l)) && s.launches[l].phase.Published?
             && st < |s.m.instances| && st in End(p).pending
    ensures Drained(x, p', k, End(p).s.launches[l].inst)
  {
    hide From;
    p' := p;
    if End(p').s.launches[l].Live() {
      p' := Extended(x, p', Do(Exit(l)));
    }
    p' := ReapClose(x, p', k, l);
    p' := ReturnNow(x, p', k);
  }

  lemma ReapClose(x: Sys, p: Path, k: nat, l: LaunchId) returns (p': Path)
    requires Begun(x, p, k) && l < |End(p).s.launches| && End(p).s.launches[l].phase == Published(false)
    requires End(p).s.launches[l].inst < |End(p).s.m.instances|
    ensures var s, s' := End(p).s, End(p').s; var st := s.launches[l].inst;
            && Begun(x, p', k) && End(p').pending == End(p).pending && s'.stoppers == s.stoppers
            && |s'.m.instances| == |s.m.instances| && !s'.m.Busy(st)
            && |s'.launches| == |s.launches| && s'.launches[l] == Launch(st, Closed)
  {
    hide From;
    p' := Extended(x, p, Do(Reap(l)));
    p' := Extended(x, p', Do(Close(l)));
  }

  lemma DrainExited(x: Sys, p: Path, k: nat, l: LaunchId) returns (p': Path)
    requires Begun(x, p, k) && k < |End(p).s.stoppers| && l < |End(p).s.launches|
    requires var s := End(p).s; var st := s.launches[l].inst;
             && s.stoppers[k] == Returned(st) && s.launches[l].phase == Spawned(false)
             && st < |s.m.instances| && st in End(p).pending
    ensures Drained(x, p', k, End(p).s.launches[l].inst)
  {
    hide From;
    p' := Extended(x, p, Do(Publish(l)));
    p' := ReapClose(x, p', k, l);
  }

  lemma StartAgain(x: Sys, p: Path, k: nat, st: InstanceId) returns (p': Path)
    requires Drained(x, p, k, st)
    ensures Escapes(x, k, st, p')
  {
    hide From;
    var l := |End(p).s.launches|;
    p' := Extended(x, p, Do(Claim(st)));
    assert End(p').s.launches[l] == Launch(st, Claimed);
    p' := SpawnLate(x, p', k, l);
  }

  // ---- from the start -------------------------------------------------------------------------------------

  /** The startShared call of an attach can come when its only reference is gone and stopped already: this run
      ends with a live child that nothing refers to, and no launch was on its way when stopShared looked. */
  lemma LateCallRun(project: Project, d: Decl) returns (p: Path)
    requires d.name != "" && d.startCmd != ""
    ensures From(START, p)
    ensures p.es == [Do(Attach(project, d)), Do(Detach(project, d.name)), Do(StopRead(0)), Do(StopReturn(0)),
                     Do(Claim(0)), Do(Spawn(0))]
    ensures p.xs[2].s.launches == [] && |p.xs[2].s.stoppers| == 1
    ensures var s := End(p).s;
            s.m.services == map[] && s.stoppers == [Returned(0)] && |s.launches| == 1 && s.launches[0].Live()
  {
    hide Can, Next;
    var x1, x2 := AttachDetach(project, d);
    var x3, x4 := ReadReturn(d, x2);
    var x5, x6 := ClaimSpawn(d, x4);
    p := Path([START, x1, x2, x3, x4, x5, x6],
              [Do(Attach(project, d)), Do(Detach(project, d.name)), Do(StopRead(0)), Do(StopReturn(0)),
               Do(Claim(0)), Do(Spawn(0))]);
  }

  lemma AttachDetach(project: Project, d: Decl) returns (x1: Sys, x2: Sys)
    requires d.name != "" && d.startCmd != ""
    ensures Can(START, Do(Attach(project, d))) && x1 == Next(START, Do(Attach(project, d)))
    ensures Can(x1, Do(Detach(project, d.name))) && x2 == Next(x1, Do(Detach(project, d.name)))
    ensures x2 == Sys(State(Manager(map[], [Service(d, {}, false, None, None)]), [], [Called(0)], [0], [0]),
                      multiset{0})
  {
    x1 := Next(START, Do(Attach(project, d)));
    assert x1.s.m == Manager(map[d.name := 0], [Service(d, {project}, false, None, None)]);
    x2 := Next(x1, Do(Detach(project, d.name)));
    assert {project} - {project} == {};
    assert x2.s.m == Manager(map[], [Service(d, {}, false, None, None)]);
  }

  lemma ReadReturn(d: Decl, x2: Sys) returns (x3: Sys, x4: Sys)
    requires x2 == Sys(State(Manager(map[], [Service(d, {}, false, None, None)]), [], [Called(0)], [0], [0]),
                       multiset{0})
    ensures Can(x2, Do(StopRead(0))) && x3 == Next(x2, Do(StopRead(0)))
    ensures Can(x3, Do(StopReturn(0))) && x4 == Next(x3, Do(StopReturn(0)))
    ensures x4 == x2.(s := x2.s.(stoppers := [Returned(0)]))
  {
    x3 := Next(x2, Do(StopRead(0)));
    assert x3.s.stoppers == [Read(0, None, None)];
    x4 := Next(x3, Do(StopReturn(0)));
  }

  lemma ClaimSpawn(d: Decl, x4: Sys) returns (x5: Sys, x6: Sys)
    requires x4.s.m == Manager(map[], [Service(d, {}, false, None, None)]) && x4.s.launches == [] && 0 in x4.pending
    ensures Can(x4, Do(Claim(0))) && x5 == Next(x4, Do(Claim(0)))
    ensures Can(x5, Do(Spawn(0))) && x6 == Next(x5, Do(Spawn(0)))
    ensures x6.s.m.services == map[] && x6.s.stoppers == x4.s.stoppers && x6.s.launches == [Launch(0, Spawned(true))]
  {
    x5 := Next(x4, Do(Claim(0)));
    assert x5.s.launches == [Launch(0, Claimed)];
    x6 := Next(x5, Do(Spawn(0)));
  }
}
