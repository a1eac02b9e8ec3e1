/** Shared services of procmgr.go: reference counts and launches, as they change under pm.mu.
    A *svcState is a position in the heap `instances`, so that a goroutine may hold on to one
    after it has left the map. */
module SharedServices {
  import opened Wrappers

  type Project = string
  type Name = string
  type InstanceId = nat
  type LaunchId = nat

  /** A service a project declares. */
  datatype Decl = Decl(name: Name, startCmd: string, stopCmd: string)

  /** svcState; a child process and its done channel are named by the launch that made them. */
  datatype Service = Service(decl: Decl, refs: set<Project>, starting: bool, cmd: Option<LaunchId>,
      done: Option<LaunchId>)

  /** What pm.mu protects. */
  datatype Manager = Manager(services: map<Name, InstanceId>, instances: seq<Service>) {
    ghost predicate Valid() {
      forall n | n in services :: services[n] < |instances|
    }

    function Put(st: InstanceId, svc: Service): Manager
      requires st < |instances|
    {
      this.(instances := instances[st := svc])
    }

    /** A launch is in flight or running: startShared has nothing to do. */
    predicate Busy(st: InstanceId)
      requires st < |instances|
    {
      instances[st].starting || instances[st].cmd.Some?
    }

    /** startShared takes the launch guard of an instance that is not busy. */
    function TakeGuard(st: InstanceId): Manager
      requires st < |instances|
    {
      if Busy(st) then this else Put(st, instances[st].(starting := true))
    }

    function DropGuard(st: InstanceId): Manager
      requires st < |instances|
    {
      Put(st, instances[st].(starting := false))
    }

    function SetProcess(st: InstanceId, l: LaunchId): Manager
      requires st < |instances|
    {
      Put(st, instances[st].(cmd := Some(l), done := Some(l)))
    }

    function ClearProcess(st: InstanceId): Manager
      requires st < |instances|
    {
      Put(st, instances[st].(cmd := None, starting := false))
    }

    /** What a whole startShared leaves: an idle instance that could be launched runs the launch. */
    function Launched(st: InstanceId, launch: Option<LaunchId>): Manager
      requires st < |instances|
    {
      if Busy(st) || launch.None? then this
      else Put(st, instances[st].(starting := true, cmd := launch, done := launch))
    }
  }

  // ---- the regions that run under the lock ---------------------------------------------------------

  datatype AttachResult = AttachResult(m: Manager, st: InstanceId, first: bool)

  /** AttachServices for one declaration: the project joins the references of the named instance,
      a new instance if there is none. */
  ghost function Attached(m: Manager, project: Project, d: Decl): (r: AttachResult)
    requires m.Valid()
    ensures r.m.Valid() && r.st < |r.m.instances|
  {
    if d.name in m.services then
      var st := m.services[d.name];
      var svc := m.instances[st];
      AttachResult(m.Put(st, svc.(refs := svc.refs + {project})), st, svc.refs == {})
    else
      AttachResult(Manager(m.services[d.name := |m.instances|],
                           m.instances + [Service(d, {project}, false, None, None)]),
                   |m.instances|, true)
  }

  datatype DetachResult = DetachResult(m: Manager, last: Option<InstanceId>)

  /** DetachServices for one name: the project leaves the references; without any left the
      instance leaves the map. */
  ghost function Detached(m: Manager, project: Project, name: Name): DetachResult
    requires m.Valid()
  {
    if name !in m.services then DetachResult(m, None)
    else
      var st := m.services[name];
      var refs := m.instances[st].refs - {project};
      var m' := m.Put(st, m.instances[st].(refs := refs));
      if refs == {} then DetachResult(m'.(services := m.services - {name}), Some(st)) else DetachResult(m', None)
  }

  class ProcManager {
    var services: map<Name, InstanceId>
    var instances: seq<Service>

    ghost function View(): Manager
      reads this
    {
      Manager(services, instances)
    }

    constructor ()
      ensures View() == Manager(map[], [])
    {
      services, instances := map[], [];
    }

    method AttachOne(project: Project, d: Decl) returns (st: InstanceId, first: bool)
      requires View().Valid()
      modifies this
      ensures AttachResult(View(), st, first) == Attached(old(View()), project, d)
      ensures View().Valid() && st < |instances|
    {
      var preLen := 0;
      if d.name in services {
        st := services[d.name];
        preLen := |instances[st].refs|;
      } else {
        st := |instances|;
        instances := instances + [Service(d, {}, false, None, None)];
        services := services[d.name := st];
      }
      instances := instances[st := instances[st].(refs := instances[st].refs + {project})];
      first := preLen == 0;
      assert {} + {project} == {project};
    }

    method DetachOne(project: Project, name: Name) returns (last: Option<InstanceId>)
      requires View().Valid()
      modifies this
      ensures DetachResult(View(), last) == Detached(old(View()), project, name)
      ensures View().Valid() && (last.Some? ==> last.value < |instances|)
    {
      if name !in services {
        return None;
      }
      var st := services[name];
      instances := instances[st := instances[st].(refs := instances[st].refs - {project})];
      if |instances[st].refs| == 0 {
        services := services - {name};
        return Some(st);
      }
      last := None;
    }

    /** startShared up to the launch guard: go when this call is the one that launches. */
    method ClaimLaunch(st: InstanceId) returns (go: bool)
      requires st < |instances|
      modifies this
      ensures go == !old(View()).Busy(st) && View() == old(View()).TakeGuard(st)
    {
      if instances[st].starting || instances[st].cmd.Some? {
        return false;
      }
      instances := instances[st := instances[st].(starting := true)];
      go := true;
    }

    /** The launch failed: the memory gate refused it or the command did not start. */
    method ReleaseLaunch(st: InstanceId)
      requires st < |instances|
      modifies this
      ensures View() == old(View()).DropGuard(st)
    {
      instances := instances[st := instances[st].(starting := false)];
    }

    method PublishLaunch(st: InstanceId, launch: LaunchId)
      requires st < |instances|
      modifies this
      ensures View() == old(View()).SetProcess(st, launch)
    {
      instances := instances[st := instances[st].(cmd := Some(launch))];
      instances := instances[st := instances[st].(done := Some(launch))];
    }

    /** The Wait goroutine, once the process is gone. */
    method ReapLaunch(st: InstanceId)
      requires st < |instances|
      modifies this
      ensures View() == old(View()).ClearProcess(st)
    {
      instances := instances[st := instances[st].(cmd := None)];
      instances := instances[st := instances[st].(starting := false)];
    }

    /** The part of stopShared that reads which process to kill and what to wait for. */
    method ReadForStop(st: InstanceId) returns (cmd: Option<LaunchId>, done: Option<LaunchId>)
      requires st < |instances|
      ensures cmd == View().instances[st].cmd && done == View().instances[st].done
    {
      cmd := instances[st].cmd;
      done := instances[st].done;
    }

    /** startShared run to its end without interruption; launch is None when the launch fails. */
    method StartShared(st: InstanceId, launch: Option<LaunchId>)
      requires View().Valid() && st < |instances|
      modifies this
      ensures View() == old(View()).Launched(st, launch) && View().Valid()
      ensures services == old(services) && |instances| == |old(instances)|
      ensures instances[st] == if old(View()).Busy(st) || launch.None? then old(instances)[st]
                               else old(instances)[st].(starting := true, cmd := launch, done := launch)
      ensures forall i | 0 <= i < |instances| && i != st :: instances[i] == old(instances)[i]
    {
      assert instances[st := instances[st]] == instances;
      var go := ClaimLaunch(st);
      if !go {
        return;
      }
      if launch.None? {
        ReleaseLaunch(st);
      } else {
        PublishLaunch(st, launch.value);
      }
    }

    /** AttachServices, run to its end without interruption; launches lists what the operating system
        answers to each start. */
    method AttachServices(project: Project, declared: seq<Decl>, launches: seq<Option<LaunchId>>)
      requires View().Valid() && |launches| == |declared|
      modifies this
      ensures View() == AttachRun(old(View()), project, declared, launches) && View().Valid()
      ensures SameRefs(AttachAll(old(View()), project, declared), View())
    {
      for i := 0 to |declared|
        invariant View() == AttachRun(old(View()), project, declared[..i], launches[..i]) && View().Valid()
      {
        assert declared[..i + 1][..i] == declared[..i] && launches[..i + 1][..i] == launches[..i];
        var d := declared[i];
        if d.name == "" || d.startCmd == "" {
          continue;
        }
        var st, first := AttachOne(project, d);
        if first {
          StartShared(st, launches[i]);
        }
      }
      assert declared[..|declared|] == declared && launches[..|declared|] == launches;
      RunKeepsRefs(old(View()), project, declared, launches);
    }

    /** DetachServices, run to its end without interruption; it stops the instances that leave the map. Stopping
        an instance changes no reference. */
    method DetachServices(project: Project, declared: seq<Decl>) returns (stopped: seq<InstanceId>)
      requires View().Valid()
      modifies this
      ensures View() == DetachAll(old(View()), project, declared) && View().Valid()
      ensures stopped == Leavers(old(View()), project, declared)
    {
      stopped := [];
      for i := 0 to |declared|
        invariant View().Valid() && View() == DetachAll(old(View()), project, declared[..i])
        invariant stopped == Leavers(old(View()), project, declared[..i])
      {
        assert declared[..i + 1][..i] == declared[..i];
        if declared[i].name == "" {
          continue;
        }
        NextLeaver(old(View()), project, declared[..i + 1]);
        var last := DetachOne(project, declared[i].name);
        if last.Some? {
          var cmd, done := ReadForStop(last.value);
          stopped := stopped + [last.value];
        }
      }
      assert declared[..|declared|] == declared;
    }
  }

  /** The same names with the same references, whatever became of the processes. */
  ghost predicate SameRefs(m: Manager, m': Manager) {
    && m.Valid() && m'.Valid() && m.services == m'.services && |m.instances| == |m'.instances|
    && forall i | 0 <= i < |m.instances| ::
         m.instances[i].refs == m'.instances[i].refs && m.instances[i].decl == m'.instances[i].decl
  }

  predicate Startable(d: Decl) {
    d.name != "" && d.startCmd != ""
  }

  ghost function AttachAll(m: Manager, project: Project, declared: seq<Decl>): (r: Manager)
    requires m.Valid()
    ensures r.Valid()
  {
    if declared == [] then m
    else
      var d := declared[|declared| - 1];
      var front := AttachAll(m, project, declared[..|declared| - 1]);
      if Startable(d) then Attached(front, project, d).m else front
  }

  /** With the launches of the first references in between. */
  ghost function AttachRun(m: Manager, project: Project, declared: seq<Decl>, launches: seq<Option<LaunchId>>):
    (r: Manager)
    requires m.Valid() && |launches| == |declared|
    ensures r.Valid()
  {
    if declared == [] then m
    else
      var n := |declared| - 1;
      var front := AttachRun(m, project, declared[..n], launches[..n]);
      if !Startable(declared[n]) then front
      else
        var r := Attached(front, project, declared[n]);
        if r.first then r.m.Launched(r.st, launches[n]) else r.m
  }

  lemma {:induction false} RunKeepsRefs(m: Manager, project: Project, declared: seq<Decl>,
      launches: seq<Option<LaunchId>>)
    requires m.Valid() && |launches| == |declared|
    ensures SameRefs(AttachAll(m, project, declared), AttachRun(m, project, declared, launches))
  {
    if declared != [] {
      var n := |declared| - 1;
      RunKeepsRefs(m, project, declared[..n], launches[..n]);
    }
  }

  ghost function DetachAll(m: Manager, project: Project, declared: seq<Decl>): (r: Manager)
    requires m.Valid()
    ensures r.Valid()
  {
    if declared == [] then m
    else
      var d := declared[|declared| - 1];
      var front := DetachAll(m, project, declared[..|declared| - 1]);
      if d.name == "" then front else Detached(front, project, d.name).m
  }

  /** Declaration i takes away the last reference of its service: it is the first of its name, and nobody else
      holds the service. */
  ghost predicate Loses(m: Manager, project: Project, declared: seq<Decl>, i: nat)
    requires m.Valid()
  {
    && i < |declared| && declared[i].name != "" && declared[i].name in m.services
    && m.instances[m.services[declared[i].name]].refs <= {project}
    && forall j | 0 <= j < i :: declared[j].name != declared[i].name
  }

  /** The instances that lose their last reference, in the order of the declarations. */
  ghost function Leavers(m: Manager, project: Project, declared: seq<Decl>): seq<InstanceId>
    requires m.Valid()
  {
    if declared == [] then []
    else
      var n := |declared| - 1;
      Leavers(m, project, declared[..n]) + if Loses(m, project, declared, n) then [m.services[declared[n].name]] else []
  }

  predicate HasName(ds: seq<Decl>, n: Name) {
    exists i | 0 <= i < |ds| :: ds[i].name == n
  }

  ghost predicate Named(ds: seq<Decl>, n: Name) {
    n != "" && HasName(ds, n)
  }

  lemma NamedAppend(ds: seq<Decl>, n: Name)
    requires ds != []
    ensures Named(ds, n) == (Named(ds[..|ds| - 1], n) || (n != "" && ds[|ds| - 1].name == n))
  {
    var k := |ds| - 1;
    if Named(ds[..k], n) {
      var i :| 0 <= i < k && ds[..k][i].name == n;
      assert ds[i].name == n;
    }
    if Named(ds, n) {
      var i :| 0 <= i < |ds| && ds[i].name == n;
      if i < k { assert ds[..k][i] == ds[i]; }
    }
  }

  // ---- what attaching starts and detaching stops ----------------------------------------------------

  /** Every registered service has references and is registered under its own name. */
  ghost predicate Registered(m: Manager)
    requires m.Valid()
  {
    forall n | n in m.services ::
      m.instances[m.services[n]].decl.name == n && m.instances[m.services[n]].refs != {}
  }

  /** The declaration that brings a new service: startable, of a name that nobody registered before it. */
  ghost predicate Brings(m: Manager, declared: seq<Decl>, i: nat) {
    && i < |declared| && Startable(declared[i]) && declared[i].name !in m.services
    && forall j | 0 <= j < i :: Startable(declared[j]) ==> declared[j].name != declared[i].name
  }

  /** The processes of the instances that were there before are left alone. */
  ghost predicate SameProcesses(m: Manager, m': Manager) {
    |m.instances| <= |m'.instances| && forall st | 0 <= st < |m.instances| ::
      m'.instances[st] == m.instances[st].(refs := m'.instances[st].refs)
  }

  /** One declaration with its launch: a new name gets a new instance that runs the launch, a known one gets the
      reference. */
  lemma AttachOneStarts(m: Manager, project: Project, d: Decl, launch: Option<LaunchId>)
    requires m.Valid() && Registered(m)
    ensures var r := Attached(m, project, d);
            var m' := if r.first then r.m.Launched(r.st, launch) else r.m;
            && r.first == (d.name !in m.services) && m'.Valid() && Registered(m')
            && if r.first
               then m' == Manager(m.services[d.name := |m.instances|],
                                  m.instances + [Service(d, {project}, launch.Some?, launch, launch)])
               else m' == Manager(m.services, m.instances[r.st := m.instances[r.st].(
                                                refs := m.instances[r.st].refs + {project})])
  {
    var r := Attached(m, project, d);
    var m' := if r.first then r.m.Launched(r.st, launch) else r.m;
    if r.first {
      assert m'.instances == m.instances + [Service(d, {project}, launch.Some?, launch, launch)];
    }
  }

  /** The name is declared with a command to start. */
  ghost predicate Declares(ds: seq<Decl>, n: Name) {
    exists i | 0 <= i < |ds| :: ds[i].name == n && Startable(ds[i])
  }

  lemma DeclaresAppend(ds: seq<Decl>, n: Name)
    requires ds != []
    ensures var d := ds[|ds| - 1]; Declares(ds, n) == (Declares(ds[..|ds| - 1], n) || (d.name == n && Startable(d)))
  {
    var k := |ds| - 1;
    if Declares(ds[..k], n) {
      var i :| 0 <= i < k && ds[..k][i].name == n && Startable(ds[..k][i]);
      assert ds[i].name == n;
    }
    if Declares(ds, n) {
      var i :| 0 <= i < |ds| && ds[i].name == n && Startable(ds[i]);
      if i < k { assert ds[..k][i] == ds[i]; }
    }
  }

  lemma BringsAppend(m: Manager, ds: seq<Decl>, i: nat)
    requires ds != []
    ensures var k := |ds| - 1;
            Brings(m, ds, i) <==> if i < k then Brings(m, ds[..k], i)
                                  else i == k && Startable(ds[k]) && ds[k].name !in m.services
                                       && !Declares(ds[..k], ds[k].name)
  {
    var k := |ds| - 1;
    if i == k && Declares(ds[..k], ds[k].name) {
      var j :| 0 <= j < k && ds[..k][j].name == ds[k].name && Startable(ds[..k][j]);
      assert ds[..k][j] == ds[j];
    }
    if i == k && !Declares(ds[..k], ds[k].name) {
      forall j | 0 <= j < k && Startable(ds[j]) ensures ds[j].name != ds[k].name { assert ds[..k][j] == ds[j]; }
    }
  }

  /** The instance of the name that declaration i brings runs the launch of that declaration. */
  ghost predicate RunsLaunch(m: Manager, m': Manager, project: Project, d: Decl, launch: Option<LaunchId>)
    requires m'.Valid()
  {
    && d.name in m'.services && m'.services[d.name] >= |m.instances|
    && m'.instances[m'.services[d.name]] == Service(d, {project}, launch.Some?, launch, launch)
  }

  ghost predicate Brought(m: Manager, m': Manager, ds: seq<Decl>, st: InstanceId) {
    exists i: nat | i < |ds| :: Brings(m, ds, i) && ds[i].name in m'.services && m'.services[ds[i].name] == st
  }

  lemma {:induction false} AttachNames(m: Manager, project: Project, ds: seq<Decl>,
      launches: seq<Option<LaunchId>>, n: Name)
    requires m.Valid() && Registered(m) && |launches| == |ds|
    ensures var m' := AttachRun(m, project, ds, launches);
            && Registered(m') && SameProcesses(m, m')
            && (n in m'.services <==> n in m.services || Declares(ds, n))
            && (n in m.services ==> m'.services[n] == m.services[n])
  {
    hide Declares, Registered;
    if ds != [] {
      var k := |ds| - 1;
      AttachNames(m, project, ds[..k], launches[..k], n);
      DeclaresAppend(ds, n);
      AttachOneStarts(AttachRun(m, project, ds[..k], launches[..k]), project, ds[k], launches[k]);
    } else {
      assert !Declares(ds, n) by { NothingDeclared(n); }
    }
  }

  lemma NothingDeclared(n: Name)
    ensures !Declares([], n)
  {}

  /** Every new instance comes from the declaration that brings its name, and runs the launch made for it. */
  ghost predicate Starts(m: Manager, m': Manager, project: Project, ds: seq<Decl>, launches: seq<Option<LaunchId>>)
    requires m'.Valid() && |launches| == |ds|
  {
    && (forall i: nat | i < |ds| && Brings(m, ds, i) :: RunsLaunch(m, m', project, ds[i], launches[i]))
    && (forall st: nat | |m.instances| <= st < |m'.instances| :: Brought(m, m', ds, st))
  }

  /** Attaching launches each new service once, with what the operating system answers at its first declaration,
      and leaves every process that was there alone. */
  lemma {:induction false} AttachStarts(m: Manager, project: Project, ds: seq<Decl>,
      launches: seq<Option<LaunchId>>)
    requires m.Valid() && Registered(m) && |launches| == |ds|
    ensures var m' := AttachRun(m, project, ds, launches);
            Registered(m') && SameProcesses(m, m') && Starts(m, m', project, ds, launches)
  {
    hide Declares, Registered, Brings, Starts;
    AttachNames(m, project, ds, launches, "");
    if ds == [] {
      NothingStarts(m, project);
    } else {
      var k := |ds| - 1;
      var m1 := AttachRun(m, project, ds[..k], launches[..k]);
      AttachStarts(m, project, ds[..k], launches[..k]);
      AttachNames(m, project, ds[..k], launches[..k], ds[k].name);
      RunOneMore(m, project, ds, launches);
      StartsMore(m, m1, AttachRun(m, project, ds, launches), project, ds, launches);
    }
  }

  lemma NothingStarts(m: Manager, project: Project)
    requires m.Valid()
    ensures Starts(m, m, project, [], [])
  {}

  /** What one more declaration makes of the manager. */
  ghost predicate OneMore(m1: Manager, m2: Manager, project: Project, d: Decl, launch: Option<LaunchId>)
    requires m1.Valid()
  {
    if !Startable(d) then m2 == m1
    else if d.name in m1.services then
      m2.services == m1.services && |m2.instances| == |m1.instances|
      && forall st | 0 <= st < |m1.instances| ::
           m2.instances[st] == if st == m1.services[d.name]
                               then m1.instances[st].(refs := m1.instances[st].refs + {project})
                               else m1.instances[st]
    else m2 == Manager(m1.services[d.name := |m1.instances|],
                       m1.instances + [Service(d, {project}, launch.Some?, launch, launch)])
  }

  lemma RunOneMore(m: Manager, project: Project, ds: seq<Decl>, launches: seq<Option<LaunchId>>)
    requires m.Valid() && Registered(m) && |launches| == |ds| && ds != []
    ensures var k := |ds| - 1;
            OneMore(AttachRun(m, project, ds[..k], launches[..k]), AttachRun(m, project, ds, launches), project, ds[k],
                    launches[k])
  {
    hide Registered, Manager.Launched;
    var k := |ds| - 1;
    AttachNames(m, project, ds[..k], launches[..k], "");
    AttachOneStarts(AttachRun(m, project, ds[..k], launches[..k]), project, ds[k], launches[k]);
  }

  lemma StartsMore(m: Manager, m1: Manager, m2: Manager, project: Project, ds: seq<Decl>,
      launches: seq<Option<LaunchId>>)
    requires m1.Valid() && m2.Valid() && |m.instances| <= |m1.instances|
    requires ds != [] && |launches| == |ds|
    requires var k := |ds| - 1;
             && OneMore(m1, m2, project, ds[k], launches[k]) && Starts(m, m1, project, ds[..k], launches[..k])
             && (ds[k].name in m1.services <==> ds[k].name in m.services || Declares(ds[..k], ds[k].name))
    ensures Starts(m, m2, project, ds, launches)
  {
    hide Declares, Brings;
    var k := |ds| - 1;
    forall i: nat | i < |ds| && Brings(m, ds, i)
      ensures RunsLaunch(m, m2, project, ds[i], launches[i])
    {
      BringsAppend(m, ds, i);
      assert i < k ==> RunsLaunch(m, m1, project, ds[..k][i], launches[..k][i]);
    }
    forall st: nat | |m.instances| <= st < |m2.instances|
      ensures Brought(m, m2, ds, st)
    {
      if st < |m1.instances| {
        assert Brought(m, m1, ds[..k], st);
        var i: nat :| i < k && Brings(m, ds[..k], i) && ds[..k][i].name in m1.services
                      && m1.services[ds[..k][i].name] == st;
        BringsAppend(m, ds, i);
        assert ds[i].name in m2.services && m2.services[ds[i].name] == st;
      } else {
        BringsAppend(m, ds, k);
        assert ds[k].name in m2.services && m2.services[ds[k].name] == st;
      }
    }
  }

  /** Detaching takes a name out of the map exactly when it is declared and nobody else holds the service. */
  lemma {:induction false} DetachNames(m: Manager, project: Project, ds: seq<Decl>, n: Name)
    requires m.Valid()
    ensures var m' := DetachAll(m, project, ds);
            && |m'.instances| == |m.instances|
            && (forall st | 0 <= st < |m.instances| ::
                  m'.instances[st].refs - {project} == m.instances[st].refs - {project}
                  && m'.instances[st] == m.instances[st].(refs := m'.instances[st].refs))
            && (n in m'.services ==> n in m.services && m'.services[n] == m.services[n])
            && (n in m.services ==>
                  (n !in m'.services <==> Named(ds, n) && m.instances[m.services[n]].refs <= {project}))
  {
    hide Named;
    if ds != [] {
      var k := |ds| - 1;
      DetachNames(m, project, ds[..k], n);
      NamedAppend(ds, n);
    } else {
      NothingNamed(n);
    }
  }

  lemma NothingNamed(n: Name)
    ensures !Named([], n)
  {}

  /** The next declaration takes an instance out of the map exactly when it takes away its last reference. */
  lemma NextLeaver(m: Manager, project: Project, ds: seq<Decl>)
    requires m.Valid() && ds != []
    ensures var k := |ds| - 1;
            ds[k].name != "" ==>
              Detached(DetachAll(m, project, ds[..k]), project, ds[k].name).last
              == if Loses(m, project, ds, k) then Some(m.services[ds[k].name]) else None
  {
    var k := |ds| - 1;
    DetachNames(m, project, ds[..k], ds[k].name);
    if Named(ds[..k], ds[k].name) {
      var j :| 0 <= j < k && ds[..k][j].name == ds[k].name;
      assert ds[j].name == ds[k].name;
    }
    if j :| 0 <= j < k && ds[j].name == ds[k].name {
      assert ds[..k][j].name == ds[k].name;
    }
  }

  /** The instances that detaching stops are those that leave the map, each once. */
  lemma {:induction false} LeaversLeave(m: Manager, project: Project, ds: seq<Decl>, n: Name)
    requires m.Valid() && Registered(m) && n in m.services
    ensures multiset(Leavers(m, project, ds))[m.services[n]]
            == if n in DetachAll(m, project, ds).services then 0 else 1
  {
    hide Named;
    if ds != [] {
      var k := |ds| - 1;
      LeaversLeave(m, project, ds[..k], n);
      DetachNames(m, project, ds[..k], n);
      NextLeaver(m, project, ds);
    }
  }

  // ---- every interleaving ----------------------------------------------------------------------------

  /** Where a launch has got to: its guard is taken; the process exists but only its launcher knows;
      it is published in the instance; its Wait goroutine has cleared the instance; its done channel
      is closed; or it failed before there was a process. */
  datatype Phase = Claimed | Spawned(alive: bool) | Published(alive: bool) | Reaped | Closed | Failed

  datatype Launch = Launch(inst: InstanceId, phase: Phase) {
    predicate InFlight() { phase.Claimed? || phase.Spawned? || phase.Published? }
    predicate Live() { (phase.Spawned? || phase.Published?) && phase.alive }
  }

  /** A call of stopShared: before it reads the instance, and after. */
  datatype Stopper = Called(inst: InstanceId) | Read(inst: InstanceId, cmd: Option<LaunchId>, done: Option<LaunchId>)
      | Returned(inst: InstanceId)

  /** The manager, all launches and stopShared calls so far, and the history of the instances that
      attach started and detach stopped. */
  datatype State = State(m: Manager, launches: seq<Launch>, stoppers: seq<Stopper>,
                         started: seq<InstanceId>, stopped: seq<InstanceId>)

  const INIT: State := State(Manager(map[], []), [], [], [], [])

  datatype Action =
    | Attach(project: Project, d: Decl)
    | Detach(project: Project, name: Name)
    | Claim(st: InstanceId)       // any caller of startShared: attach or the health monitor
    | Fail(l: LaunchId)           // memory gate, or the command does not start
    | Spawn(l: LaunchId)
    | Publish(l: LaunchId)
    | Exit(l: LaunchId)           // the process ends, by itself or killed
    | Reap(l: LaunchId)
    | Close(l: LaunchId)
    | StopRead(k: nat)
    | StopReturn(k: nat)

  ghost predicate Enabled(s: State, a: Action) {
    s.m.Valid() &&
    match a
    case Attach(_, d) => d.name != "" && d.startCmd != ""
    case Detach(_, name) => name != ""
    case Claim(st) => st < |s.m.instances|
    case Fail(l) => l < |s.launches| && s.launches[l].phase.Claimed? && s.launches[l].inst < |s.m.instances|
    case Spawn(l) => l < |s.launches| && s.launches[l].phase.Claimed?
    case Publish(l) => l < |s.launches| && s.launches[l].phase.Spawned? && s.launches[l].inst < |s.m.instances|
    case Exit(l) => l < |s.launches| && s.launches[l].Live()
    case Reap(l) => l < |s.launches| && s.launches[l].phase == Published(false) && s.launches[l].inst < |s.m.instances|
    case Close(l) => l < |s.launches| && s.launches[l].phase.Reaped?
    case StopRead(k) => k < |s.stoppers| && s.stoppers[k].Called? && s.stoppers[k].inst < |s.m.instances|
    case StopReturn(k) =>
      && k < |s.stoppers| && s.stoppers[k].Read?
      && (s.stoppers[k].cmd.Some? ==>
            s.stoppers[k].done.Some? && s.stoppers[k].done.value < |s.launches|
            && s.launches[s.stoppers[k].done.value].phase.Closed?)
  }

  ghost function SetPhase(s: State, l: LaunchId, p: Phase): State
    requires l < |s.launches|
  {
    s.(launches := s.launches[l := s.launches[l].(phase := p)])
  }

  ghost function Step(s: State, a: Action): State
    requires Enabled(s, a)
  {
    match a
    case Attach(project, d) =>
      var r := Attached(s.m, project, d);
      s.(m := r.m, started := if r.first then s.started + [r.st] else s.started)
    case Detach(project, name) =>
      var r := Detached(s.m, project, name);
      if r.last.None? then s.(m := r.m)
      else s.(m := r.m, stopped := s.stopped + [r.last.value], stoppers := s.stoppers + [Called(r.last.value)])
    case Claim(st) =>
      if s.m.Busy(st) then s
      else s.(m := s.m.TakeGuard(st), launches := s.launches + [Launch(st, Claimed)])
    case Fail(l) =>
      SetPhase(s.(m := s.m.DropGuard(s.launches[l].inst)), l, Failed)
    case Spawn(l) => SetPhase(s, l, Spawned(true))
    case Publish(l) =>
      SetPhase(s.(m := s.m.SetProcess(s.launches[l].inst, l)), l, Published(s.launches[l].phase.alive))
    case Exit(l) =>
      SetPhase(s, l, if s.launches[l].phase.Spawned? then Spawned(false) else Published(false))
    case Reap(l) =>
      SetPhase(s.(m := s.m.ClearProcess(s.launches[l].inst)), l, Reaped)
    case Close(l) => SetPhase(s, l, Closed)
    case StopRead(k) =>
      var st := s.stoppers[k].inst;
      s.(stoppers := s.stoppers[k := Read(st, s.m.instances[st].cmd, s.m.instances[st].done)])
    case StopReturn(k) => s.(stoppers := s.stoppers[k := Returned(s.stoppers[k].inst)])
  }

  /** A run from s on: any actions, in any order, each enabled when it happens. */
  ghost predicate RunFrom(s: State, states: seq<State>, actions: seq<Action>) {
    && |states| == |actions| + 1 && states[0] == s
    && forall i | 0 <= i < |actions| :: Enabled(states[i], actions[i]) && states[i + 1] == Step(states[i], actions[i])
  }

  ghost predicate Run(states: seq<State>, actions: seq<Action>) {
    RunFrom(INIT, states, actions)
  }

  // ---- launches -----------------------------------------------------------------------------------------

  /** The launch protocol: `starting` marks exactly the instances with a launch in flight, there is never
      a second one, and cmd names it exactly while it is published. */
  ghost predicate LaunchInv(s: State) {
    && (forall l | 0 <= l < |s.launches| :: s.launches[l].inst < |s.m.instances|)
    && (forall l | 0 <= l < |s.launches| && s.launches[l].InFlight() :: s.m.instances[s.launches[l].inst].starting)
    && (forall l, l' | 0 <= l < l' < |s.launches| && s.launches[l].InFlight() && s.launches[l'].InFlight() ::
          s.launches[l].inst != s.launches[l'].inst)
    && (forall st | 0 <= st < |s.m.instances| && s.m.instances[st].starting :: HasLaunch(s, st))
    && (forall st | 0 <= st < |s.m.instances| && s.m.instances[st].cmd.Some? ::
          var l := s.m.instances[st].cmd.value;
          l < |s.launches| && s.launches[l].inst == st && s.launches[l].phase.Published?
          && s.m.instances[st].done == Some(l))
    && (forall l | 0 <= l < |s.launches| && s.launches[l].phase.Published? ::
          s.m.instances[s.launches[l].inst].cmd == Some(l))
    && (forall k | 0 <= k < |s.stoppers| :: s.stoppers[k].inst < |s.m.instances|)
    && (forall k | 0 <= k < |s.stoppers| && s.stoppers[k].Read? && s.stoppers[k].cmd.Some? ::
          s.stoppers[k].done == s.stoppers[k].cmd && s.stoppers[k].cmd.value < |s.launches|
          && s.launches[s.stoppers[k].cmd.value].inst == s.stoppers[k].inst)
  }

  ghost predicate HasLaunch(s: State, st: InstanceId) {
    exists l :: 0 <= l < |s.launches| && s.launches[l].inst == st && s.launches[l].InFlight()
  }

  // ---- references -------------------------------------------------------------------------------------------

  /** Reference counting: the map holds exactly the instances with references, each under its own name;
      every instance was started once, and stopped once if it is no longer in the map. */
  ghost predicate RefInv(s: State) {
    && s.m.Valid()
    && (forall n | n in s.m.services :: s.m.instances[s.m.services[n]].decl.name == n)
    && (forall st | 0 <= st < |s.m.instances| :: s.m.instances[st].refs != {} <==> InMap(s.m, st))
    && s.started == seq(|s.m.instances|, i => i)
    && (forall st :: st in s.stopped <==> 0 <= st < |s.m.instances| && s.m.instances[st].refs == {})
    && (forall i, j | 0 <= i < j < |s.stopped| :: s.stopped[i] != s.stopped[j])
    && |s.stoppers| == |s.stopped| && forall k | 0 <= k < |s.stopped| :: s.stoppers[k].inst == s.stopped[k]
  }

  ghost predicate InMap(m: Manager, st: InstanceId)
    requires st < |m.instances|
  {
    var n := m.instances[st].decl.name;
    n in m.services && m.services[n] == st
  }

  /** Changing references, or adding an instance that is not starting, leaves every launch as it was. */
  lemma LaunchesUntouched(s: State, s': State)
    requires LaunchInv(s) && s'.launches == s.launches && |s'.m.instances| >= |s.m.instances|
    requires forall st | 0 <= st < |s.m.instances| ::
               s'.m.instances[st] == s.m.instances[st].(refs := s'.m.instances[st].refs)
    requires forall st | |s.m.instances| <= st < |s'.m.instances| ::
               !s'.m.instances[st].starting && s'.m.instances[st].cmd.None?
    requires |s'.stoppers| >= |s.stoppers| && (forall k | 0 <= k < |s.stoppers| :: s'.stoppers[k] == s.stoppers[k])
    requires forall k | |s.stoppers| <= k < |s'.stoppers| ::
               s'.stoppers[k].Called? && s'.stoppers[k].inst < |s'.m.instances|
    ensures LaunchInv(s')
  {
    forall st | 0 <= st < |s'.m.instances| && s'.m.instances[st].starting ensures HasLaunch(s', st) {
      assert HasLaunch(s, st);
    }
  }

  /** A launch that stays in flight, and whose instance still says so, keeps the instance's mark right. */
  lemma StillLaunched(s: State, s': State, l: LaunchId)
    requires LaunchInv(s) && l < |s.launches| && |s'.launches| == |s.launches|
    requires |s'.m.instances| == |s.m.instances|
    requires forall k | 0 <= k < |s.launches| && k != l :: s'.launches[k] == s.launches[k]
    requires s'.launches[l].inst == s.launches[l].inst
    requires forall st | 0 <= st < |s.m.instances| && s'.m.instances[st].starting ::
               s.m.instances[st].starting
               && (st == s.launches[l].inst && s.launches[l].InFlight() ==> s'.launches[l].InFlight())
    ensures forall st | 0 <= st < |s'.m.instances| && s'.m.instances[st].starting :: HasLaunch(s', st)
  {
    forall st | 0 <= st < |s'.m.instances| && s'.m.instances[st].starting ensures HasLaunch(s', st) {
      assert HasLaunch(s, st);
      var k :| 0 <= k < |s.launches| && s.launches[k].inst == st && s.launches[k].InFlight();
      if k != l {
        assert s'.launches[k] == s.launches[k];
      }
    }
  }

  lemma ClaimMarks(s: State, st: InstanceId)
    requires Enabled(s, Claim(st)) && LaunchInv(s) && !s.m.instances[st].starting && s.m.instances[st].cmd.None?
    ensures var s' := Step(s, Claim(st));
            forall i | 0 <= i < |s'.m.instances| && s'.m.instances[i].starting :: HasLaunch(s', i)
  {
    var s' := Step(s, Claim(st));
    var n := |s.launches|;
    assert s'.launches[n] == Launch(st, Claimed);
    forall i | 0 <= i < |s'.m.instances| && s'.m.instances[i].starting ensures HasLaunch(s', i) {
      if i != st {
        assert HasLaunch(s, i);
        var k :| 0 <= k < |s.launches| && s.launches[k].inst == i && s.launches[k].InFlight();
        assert s'.launches[k] == s.launches[k];
      } else {
        assert s'.launches[n].InFlight();
      }
    }
  }

  lemma ClaimKeeps(s: State, st: InstanceId)
    requires Enabled(s, Claim(st)) && LaunchInv(s)
    ensures LaunchInv(Step(s, Claim(st)))
  {
    hide HasLaunch;
    var s' := Step(s, Claim(st));
    if s' != s {
      ClaimMarks(s, st);
      var n := |s.launches|;
      assert s'.launches[n] == Launch(st, Claimed) && forall l | 0 <= l < n :: s'.launches[l] == s.launches[l];
    }
  }

  lemma FailKeeps(s: State, l: LaunchId)
    requires Enabled(s, Fail(l)) && LaunchInv(s)
    ensures LaunchInv(Step(s, Fail(l)))
  {
    hide HasLaunch;
    StillLaunched(s, Step(s, Fail(l)), l);
  }

  lemma SpawnKeeps(s: State, l: LaunchId)
    requires Enabled(s, Spawn(l)) && LaunchInv(s)
    ensures LaunchInv(Step(s, Spawn(l)))
  {
    hide HasLaunch;
    StillLaunched(s, Step(s, Spawn(l)), l);
  }

  lemma PublishKeeps(s: State, l: LaunchId)
    requires Enabled(s, Publish(l)) && LaunchInv(s)
    ensures LaunchInv(Step(s, Publish(l)))
  {
    hide HasLaunch;
    StillLaunched(s, Step(s, Publish(l)), l);
  }

  lemma ExitKeeps(s: State, l: LaunchId)
    requires Enabled(s, Exit(l)) && LaunchInv(s)
    ensures LaunchInv(Step(s, Exit(l)))
  {
    hide HasLaunch;
    StillLaunched(s, Step(s, Exit(l)), l);
  }

  lemma ReapKeeps(s: State, l: LaunchId)
    requires Enabled(s, Reap(l)) && LaunchInv(s)
    ensures LaunchInv(Step(s, Reap(l)))
  {
    hide HasLaunch;
    StillLaunched(s, Step(s, Reap(l)), l);
  }

  lemma CloseKeeps(s: State, l: LaunchId)
    requires Enabled(s, Close(l)) && LaunchInv(s)
    ensures LaunchInv(Step(s, Close(l)))
  {
    hide HasLaunch;
    StillLaunched(s, Step(s, Close(l)), l);
  }

  lemma StopKeeps(s: State, a: Action)
    requires (a.StopRead? || a.StopReturn?) && Enabled(s, a) && LaunchInv(s)
    ensures LaunchInv(Step(s, a))
  {
    hide HasLaunch;
    SameHeap(s, Step(s, a));
  }

  lemma CountKeeps(s: State, a: Action)
    requires (a.Attach? || a.Detach?) && Enabled(s, a) && LaunchInv(s)
    ensures LaunchInv(Step(s, a))
  {
    hide HasLaunch, LaunchInv;
    LaunchesUntouched(s, Step(s, a));
  }

  /** The launch invariant holds after every step of every thread. */
  lemma LaunchStep(s: State, a: Action)
    requires Enabled(s, a) && LaunchInv(s)
    ensures LaunchInv(Step(s, a))
  {
    hide LaunchInv, Step, Enabled;
    match a {
      case Attach(_, _) => CountKeeps(s, a);
      case Detach(_, _) => CountKeeps(s, a);
      case Claim(st) => ClaimKeeps(s, st);
      case Fail(l) => FailKeeps(s, l);
      case Spawn(l) => SpawnKeeps(s, l);
      case Publish(l) => PublishKeeps(s, l);
      case Exit(l) => ExitKeeps(s, l);
      case Reap(l) => ReapKeeps(s, l);
      case Close(l) => CloseKeeps(s, l);
      case StopRead(_) => StopKeeps(s, a);
      case StopReturn(_) => StopKeeps(s, a);
    }
  }

  lemma SameHeap(s: State, s': State)
    requires LaunchInv(s) && s'.m == s.m && s'.launches == s.launches
    ensures forall st | 0 <= st < |s'.m.instances| && s'.m.instances[st].starting :: HasLaunch(s', st)
  {
    forall st | 0 <= st < |s'.m.instances| && s'.m.instances[st].starting ensures HasLaunch(s', st) {
      assert HasLaunch(s, st);
    }
  }

  lemma RefsUntouched(s: State, s': State)
    requires RefInv(s) && s'.started == s.started && s'.stopped == s.stopped && s'.m.services == s.m.services
    requires |s'.m.instances| == |s.m.instances|
    requires forall st | 0 <= st < |s.m.instances| ::
               s'.m.instances[st].refs == s.m.instances[st].refs && s'.m.instances[st].decl == s.m.instances[st].decl
    requires |s'.stoppers| == |s.stoppers|
    requires forall k | 0 <= k < |s.stoppers| :: s'.stoppers[k].inst == s.stoppers[k].inst
    ensures RefInv(s')
  {}

  lemma AttachKeeps(s: State, project: Project, d: Decl)
    requires Enabled(s, Attach(project, d)) && RefInv(s)
    ensures RefInv(Step(s, Attach(project, d)))
  {
    var s' := Step(s, Attach(project, d));
    var n := |s.m.instances|;
    if d.name in s.m.services {
      assert InMap(s.m, s.m.services[d.name]);
      assert s'.started == s.started;
    } else {
      assert s'.m.instances[n].decl == d;
      assert forall st | 0 <= st < n :: s'.m.instances[st] == s.m.instances[st];
      assert s'.started == seq(n + 1, i => i);
      forall st | 0 <= st < n ensures InMap(s'.m, st) == InMap(s.m, st) {}
    }
  }

  lemma DetachKeeps(s: State, project: Project, name: Name)
    requires Enabled(s, Detach(project, name)) && RefInv(s)
    ensures RefInv(Step(s, Detach(project, name)))
  {
    var s' := Step(s, Detach(project, name));
    if name in s.m.services {
      var st := s.m.services[name];
      assert InMap(s.m, st) && st !in s.stopped;
      MapAfterDetach(s, s', st);
      hide InMap;
      assert s'.m.instances[st].refs != {} <==> InMap(s'.m, st);
    }
  }

  lemma MapAfterDetach(s: State, s': State, st: InstanceId)
    requires RefInv(s) && |s'.m.instances| == |s.m.instances| && st < |s.m.instances| && InMap(s.m, st)
    requires forall i | 0 <= i < |s.m.instances| :: s'.m.instances[i].decl == s.m.instances[i].decl
    requires s'.m.services == s.m.services || s'.m.services == s.m.services - {s.m.instances[st].decl.name}
    ensures forall i | 0 <= i < |s.m.instances| && i != st :: InMap(s'.m, i) == InMap(s.m, i)
    ensures InMap(s'.m, st) == (s'.m.services == s.m.services)
  {}

  /** So does the reference-counting invariant. */
  lemma RefStep(s: State, a: Action)
    requires Enabled(s, a) && RefInv(s)
    ensures RefInv(Step(s, a))
  {
    hide RefInv;
    match a {
      case Attach(project, d) => AttachKeeps(s, project, d);
      case Detach(project, name) => DetachKeeps(s, project, name);
      case _ => RefsUntouched(s, Step(s, a));
    }
  }

  lemma {:induction false} RunKeeps(states: seq<State>, actions: seq<Action>, i: nat)
    requires Run(states, actions) && i < |states|
    ensures LaunchInv(states[i]) && RefInv(states[i])
  {
    hide LaunchInv, RefInv, Step, Enabled;
    if i == 0 {
      InitHolds();
    } else {
      RunKeeps(states, actions, i - 1);
      LaunchStep(states[i - 1], actions[i - 1]);
      RefStep(states[i - 1], actions[i - 1]);
    }
  }

  lemma InitHolds()
    ensures LaunchInv(INIT) && RefInv(INIT)
  {}

  // ---- the main results -----------------------------------------------------------------------------------------

  /** A launch is alive from the moment it is spawned until it exits, and at no other time. */
  lemma AliveFromSpawnToExit(s: State, a: Action, l: LaunchId)
    requires Enabled(s, a) && l < |s.launches|
    ensures Step(s, a).launches[l].Live() <==> a == Spawn(l) || (s.launches[l].Live() && a != Exit(l))
    ensures Step(s, a).launches[l].inst == s.launches[l].inst
  {
    hide Attached, Detached;
  }

  /** Over every interleaving: an instance never has two live children, a live child or a published
      one implies `starting`, and what stopShared reads as cmd and done belongs to one launch of that
      very instance. */
  lemma SingleLiveChild(states: seq<State>, actions: seq<Action>, i: nat)
    requires Run(states, actions) && i < |states|
    ensures var s := states[i];
            && (forall l, l' | 0 <= l < |s.launches| && 0 <= l' < |s.launches|
                               && s.launches[l].Live() && s.launches[l'].Live() ::
                  s.launches[l].inst == s.launches[l'].inst ==> l == l')
            && (forall l | 0 <= l < |s.launches| && s.launches[l].Live() ::
                  s.launches[l].inst < |s.m.instances| && s.m.instances[s.launches[l].inst].starting)
            && (forall st | 0 <= st < |s.m.instances| && s.m.instances[st].cmd.Some? :: s.m.instances[st].starting)
            && (forall k | 0 <= k < |s.stoppers| && s.stoppers[k].Read? && s.stoppers[k].cmd.Some? ::
                  s.stoppers[k].done == s.stoppers[k].cmd && s.stoppers[k].cmd.value < |s.launches|
                  && s.launches[s.stoppers[k].cmd.value].inst == s.stoppers[k].inst)
  {
    RunKeeps(states, actions, i);
    var s := states[i];
    forall st | 0 <= st < |s.m.instances| && s.m.instances[st].cmd.Some? ensures s.m.instances[st].starting {
      var l := s.m.instances[st].cmd.value;
      assert s.launches[l].InFlight();
    }
  }

  /** Over every interleaving: a service in the map has references and is registered under its own name,
      every instance was started exactly once, and stopShared was called exactly once for each instance
      that has left the map. */
  lemma ReferenceCountsExact(states: seq<State>, actions: seq<Action>, i: nat)
    requires Run(states, actions) && i < |states|
    ensures var s := states[i];
            && (forall n | n in s.m.services ::
                  var st := s.m.services[n];
                  st < |s.m.instances| && s.m.instances[st].refs != {} && s.m.instances[st].decl.name == n)
            && multiset(s.started) == multiset(seq(|s.m.instances|, k => k))
            && (forall st | 0 <= st < |s.m.instances| ::
                  multiset(s.stopped)[st] == if InMap(s.m, st) then 0 else 1)
  {
    RunKeeps(states, actions, i);
    var s := states[i];
    forall n | n in s.m.services ensures s.m.instances[s.m.services[n]].refs != {} {
      assert InMap(s.m, s.m.services[n]);
    }
    forall st | 0 <= st < |s.m.instances| ensures multiset(s.stopped)[st] == if InMap(s.m, st) then 0 else 1 {
      assert st in s.stopped <==> !InMap(s.m, st);
      CountDistinct(s.stopped, st);
    }
  }

  lemma {:induction false} CountDistinct(xs: seq<InstanceId>, x: InstanceId)
    requires forall i, j | 0 <= i < j < |xs| :: xs[i] != xs[j]
    ensures multiset(xs)[x] == if x in xs then 1 else 0
  {
    if xs != [] {
      var n := |xs| - 1;
      CountDistinct(xs[..n], x);
      assert xs == xs[..n] + [xs[n]];
    }
  }

  /** Attach starts an instance exactly when its references go from empty to nonempty. */
  lemma StartsOnFirstReference(s: State, project: Project, d: Decl)
    requires RefInv(s)
    ensures var r := Attached(s.m, project, d);
            r.first <==> (forall st | 0 <= st < |s.m.instances| && s.m.instances[st].decl.name == d.name ::
                            s.m.instances[st].refs == {})
  {
    if d.name in s.m.services {
      assert InMap(s.m, s.m.services[d.name]);
    } else {
      forall st | 0 <= st < |s.m.instances| && s.m.instances[st].decl.name == d.name
        ensures s.m.instances[st].refs == {}
      {
        assert !InMap(s.m, st);
      }
    }
  }

  /** An instance that has left the map never regains a reference. */
  lemma {:induction false} RemovedForGood(states: seq<State>, actions: seq<Action>, i: nat, j: nat, st: InstanceId)
    requires Run(states, actions) && i <= j < |states|
    requires st < |states[i].m.instances| && states[i].m.instances[st].refs == {}
    ensures st < |states[j].m.instances| && states[j].m.instances[st].refs == {}
    decreases j
  {
    hide RefInv, LaunchInv, Step, Enabled;
    if i < j {
      RemovedForGood(states, actions, i, j - 1, st);
      RunKeeps(states, actions, j - 1);
      NoRefsRegained(states[j - 1], actions[j - 1], st);
    }
  }

  lemma NoRefsRegained(s: State, a: Action, st: InstanceId)
    requires RefInv(s) && Enabled(s, a) && st < |s.m.instances| && s.m.instances[st].refs == {}
    ensures st < |Step(s, a).m.instances| && Step(s, a).m.instances[st].refs == {}
  {
    if a.Attach? && a.d.name in s.m.services {
      assert InMap(s.m, s.m.services[a.d.name]);
    }
  }

  /** When a stopShared call that saw a process returns, that process is gone, and so is its entry. */
  lemma StopWaitsForExit(states: seq<State>, actions: seq<Action>, i: nat, k: nat, after: State)
    requires Run(states, actions) && i < |actions| && actions[i] == StopReturn(k) && after == states[i + 1]
    requires states[i].stoppers[k].cmd.Some?
    ensures var l := states[i].stoppers[k].cmd.value;
            && l < |after.launches| && !after.launches[l].InFlight()
            && forall st | 0 <= st < |after.m.instances| :: after.m.instances[st].cmd != Some(l)
  {
    RunKeeps(states, actions, i);
    RunKeeps(states, actions, i + 1);
  }

  /** stopShared sees nothing to stop exactly when no launch of the instance is published. A launch
      that is still on its way at that moment is then missed: that is the case exactly when the
      instance is `starting`. */
  lemma StopMissesLaunch(s: State, k: nat)
    requires LaunchInv(s) && Enabled(s, StopRead(k))
    ensures var st := s.stoppers[k].inst;
            var s' := Step(s, StopRead(k));
            s'.stoppers[k].cmd.None? ==>
              (s.m.instances[st].starting <==>
               exists l :: 0 <= l < |s'.launches| && s'.launches[l].inst == st
                           && (s'.launches[l].phase.Claimed? || s'.launches[l].phase.Spawned?))
  {
    var st := s.stoppers[k].inst;
    if s.m.instances[st].cmd.None? && s.m.instances[st].starting {
      assert HasLaunch(s, st);
      var l :| 0 <= l < |s.launches| && s.launches[l].inst == st && s.launches[l].InFlight();
      assert !s.launches[l].phase.Published?;
    }
  }

  /** So detaching while a launch is under way can leave a live child without references, whatever the
      service: this run does. */
  lemma OrphanRun(p: Project, d: Decl) returns (states: seq<State>, actions: seq<Action>)
    requires d.name != "" && d.startCmd != ""
    ensures Run(states, actions)
    ensures var s := states[|actions|];
            s.m.services == map[] && s.stoppers == [Returned(0)] && |s.launches| == 1 && s.launches[0].Live()
  {
    hide Step, Enabled;
    actions := [Attach(p, d), Claim(0), Spawn(0), Detach(p, d.name), StopRead(0), StopReturn(0)];
    var s2 := OrphanLaunch(p, d);
    var s1 := Step(INIT, actions[0]);
    var s3 := Step(s2, actions[2]);
    var s4, s5, s6 := OrphanDetach(p, d, s3);
    states := [INIT, s1, s2, s3, s4, s5, s6];
  }

  lemma OrphanLaunch(p: Project, d: Decl) returns (s: State)
    requires d.name != "" && d.startCmd != ""
    ensures Enabled(INIT, Attach(p, d)) && Enabled(Step(INIT, Attach(p, d)), Claim(0))
    ensures s == Step(Step(INIT, Attach(p, d)), Claim(0)) && Enabled(s, Spawn(0))
    ensures Step(s, Spawn(0)) == State(Manager(map[d.name := 0], [Service(d, {p}, true, None, None)]),
        [Launch(0, Spawned(true))], [], [0], [])
  {
    s := Step(Step(INIT, Attach(p, d)), Claim(0));
    assert s.launches == [Launch(0, Claimed)];
  }

  lemma OrphanDetach(p: Project, d: Decl, s3: State) returns (s4: State, s5: State, s6: State)
    requires d.name != ""
    requires s3 == State(Manager(map[d.name := 0], [Service(d, {p}, true, None, None)]), [Launch(0, Spawned(true))],
        [], [0], [])
    ensures Enabled(s3, Detach(p, d.name)) && s4 == Step(s3, Detach(p, d.name))
    ensures Enabled(s4, StopRead(0)) && s5 == Step(s4, StopRead(0))
    ensures Enabled(s5, StopReturn(0)) && s6 == Step(s5, StopReturn(0))
    ensures s6.m.services == map[] && s6.stoppers == [Returned(0)] && |s6.launches| == 1 && s6.launches[0].Live()
  {
    assert {p} - {p} == {};
    s4 := Step(s3, Detach(p, d.name));
    assert s4.stoppers == [Called(0)];
    s5 := Step(s4, StopRead(0));
    s6 := Step(s5, StopReturn(0));
  }
}
