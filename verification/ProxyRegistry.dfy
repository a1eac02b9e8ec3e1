/** The TCP proxy registry of tcpproxy.go: which listener and which connection counter belong to a
    project, while serve loops and connection handlers come and go. */
module ProxyRegistry {
  import opened Text
  import opened Wrappers

  type Project = string

  /** Start makes a listener and a counter together; both are named by the generation they belong to. */
  type Generation = nat

  // ---- what Start decides from the project's row --------------------------------------------------------------

  /** The columns of the projects table that Start reads; a missing row reads as empty ones. */
  datatype Row = Row(port: string, backend: string, serviceName: string, startCmd: string)

  /** An unusable port, nothing to proxy to, a port that cannot be listened on, or a listener. */
  datatype Plan = BadPort | Skipped | ListenFailed | Listens

  /** The position of the last colon. */
  function LastColon(s: string): (r: Option<nat>)
    ensures r.Some? ==> r.value < |s| && s[r.value] == ':' && forall i | r.value < i < |s| :: s[i] != ':'
    ensures r.None? ==> ':' !in s
  {
    if s == "" then None
    else if s[|s| - 1] == ':' then Some(|s| - 1)
    else LastColon(s[..|s| - 1])
  }

  datatype HostPort = HostPort(host: string, port: string)

  /** net.SplitHostPort; None is its error. */
  function SplitHostPort(s: string): Option<HostPort> {
    match LastColon(s)
    case None => None
    case Some(i) =>
      if s[0] == '[' then
        var end := IndexOf(s, ']');
        if end == |s| || end + 1 != i || '[' in s[1..] || ']' in s[end + 1..] then None
        else Some(HostPort(s[1..end], s[i + 1..]))
      else if ':' in s[..i] || '[' in s || ']' in s then None
      else Some(HostPort(s[..i], s[i + 1..]))
  }

  /** selfLoopBackend; loopbackIP tells which texts net.ParseIP reads as a loopback address. */
  predicate SelfLoop(backend: string, port: string, loopbackIP: string -> bool) {
    match SplitHostPort(backend)
    case None => false
    case Some(hp) => hp.port == port && (hp.host == "localhost" || loopbackIP(hp.host))
  }

  /** Where connections would go: by default to the project's own port on this machine. */
  function Dialled(row: Row): string {
    var backend := if row.backend == "" then "127.0.0.1:" + row.port else row.backend;
    var bare := if HasPrefix(backend, "http://") then backend[7..] else backend;
    if ':' in bare then bare else "127.0.0.1:" + bare
  }

  function PlanOf(row: Row, listenable: bool, loopbackIP: string -> bool): Plan {
    if Atoi(row.port).None? || Atoi(row.port).value == 0 then BadPort
    else if row.backend == "" && row.serviceName == "" && row.startCmd == "" then Skipped
    else if SelfLoop(Dialled(row), row.port, loopbackIP) then Skipped
    else if listenable then Listens
    else ListenFailed
  }

  /** What tp.mu protects. */
  datatype Registry = Registry(listeners: map<Project, Generation>, actives: map<Project, Generation>) {
    function Started(p: Project, plan: Plan, g: Generation): Registry {
      if p in listeners || !plan.Listens? then this else Registry(listeners[p := g], actives[p := g])
    }

    /** The deferred region of serve: the registry forgets the dead listener, if it still holds that one. */
    function Died(p: Project, g: Generation): Registry {
      if p in listeners && listeners[p] == g then Registry(listeners - {p}, actives - {p}) else this
    }

    function Stopped(p: Project): Registry {
      Registry(listeners - {p}, actives - {p})
    }
  }

  class TCPProxy {
    var listeners: map<Project, Generation>
    var actives: map<Project, Generation>

    ghost function View(): Registry
      reads this
    {
      Registry(listeners, actives)
    }

    constructor ()
      ensures View() == Registry(map[], map[])
    {
      listeners, actives := map[], map[];
    }

    method Start(p: Project, row: Row, listenable: bool, loopbackIP: string -> bool, g: Generation)
      returns (ok: bool)
      modifies this
      ensures var plan := PlanOf(row, listenable, loopbackIP);
              View() == old(View()).Started(p, plan, g) && ok == (p in old(listeners) || plan.Skipped? || plan.Listens?)
    {
      if p in listeners {
        return true;
      }
      var port := Atoi(row.port);
      if port.None? || port.value == 0 {
        return false;
      }
      var backend := row.backend;
      if backend == "" {
        if row.serviceName == "" && row.startCmd == "" {
          return true;
        }
        backend := "127.0.0.1:" + row.port;
      }
      if HasPrefix(backend, "http://") {
        backend := backend[7..];
      }
      if ':' !in backend {
        backend := "127.0.0.1:" + backend;
      }
      if SelfLoop(backend, row.port, loopbackIP) {
        return true;
      }
      if !listenable {
        return false;
      }
      listeners := listeners[p := g];
      actives := actives[p := g];
      ok := true;
    }

    method ServeExit(p: Project, g: Generation)
      modifies this
      ensures View() == old(View()).Died(p, g)
    {
      if p in listeners && listeners[p] == g {
        listeners := listeners - {p};
        actives := actives - {p};
      }
    }

    method Stop(p: Project) returns (closed: Option<Generation>)
      modifies this
      ensures View() == old(View()).Stopped(p)
      ensures closed == if p in old(listeners) then Some(old(listeners)[p]) else None
    {
      closed := None;
      if p in listeners {
        closed := Some(listeners[p]);
        listeners := listeners - {p};
      }
      actives := actives - {p};
      assert p !in old(listeners) ==> listeners == old(listeners) - {p};
    }
  }

  // ---- which projects get a proxy ---------------------------------------------------------------------------------

  lemma PortChars(port: string)
    requires Atoi(port).Some?
    ensures port != "" && ':' !in port && '[' !in port && ']' !in port
  {
    forall c | c in port
      ensures IsDigit(c) || c == '+' || c == '-'
    {
      var i :| 0 <= i < |port| && port[i] == c;
      assert i > 0 ==> port[1..][i - 1] == c;
    }
  }

  lemma NoScheme(s: string)
    requires s != "" && s[0] != 'h'
    ensures !HasPrefix(s, "http://")
  {
    assert |s| >= 7 ==> s[..7][0] == s[0];
  }

  lemma SplitsAtPort(host: string, port: string)
    requires ':' !in host && '[' !in host && ']' !in host && ':' !in port && '[' !in port && ']' !in port
    ensures SplitHostPort(host + ":" + port) == Some(HostPort(host, port))
  {
    var s := host + ":" + port;
    var i := LastColon(s);
    assert s[|host|] == ':';
    assert i.Some?;
    assert forall k | 0 <= k < |host| :: s[k] == host[k];
    assert forall k | |host| < k < |s| :: s[k] == port[k - |host| - 1];
    assert s[..|host|] == host && s[|host| + 1..] == port;
  }

  /** A project without a backend of its own is never proxied: the default backend is the proxy's own port, and
      the guard against loops skips it. */
  lemma NoBackendNoProxy(row: Row, listenable: bool, loopbackIP: string -> bool)
    requires row.backend == "" && loopbackIP("127.0.0.1")
    ensures PlanOf(row, listenable, loopbackIP).BadPort? || PlanOf(row, listenable, loopbackIP).Skipped?
  {
    hide Atoi, SplitHostPort;
    if Atoi(row.port).Some? {
      PortChars(row.port);
      LocalBackend(row.port, loopbackIP);
    }
  }

  /** Exactly these projects are proxied: a port to listen on, a backend, and no way back to the port itself. */
  lemma ProxiedExactly(row: Row, listenable: bool, loopbackIP: string -> bool)
    requires loopbackIP("127.0.0.1")
    ensures PlanOf(row, listenable, loopbackIP).Listens?
            <==> Atoi(row.port).Some? && Atoi(row.port) != Some(0) && listenable
                 && row.backend != "" && !SelfLoop(Dialled(row), row.port, loopbackIP)
  {
    hide Atoi, SelfLoop, Dialled;
    if row.backend == "" {
      NoBackendNoProxy(row, listenable, loopbackIP);
    }
  }

  lemma LocalBackend(port: string, loopbackIP: string -> bool)
    requires Atoi(port).Some? && loopbackIP("127.0.0.1")
    ensures var backend := "127.0.0.1:" + port;
            SelfLoop(backend, port, loopbackIP) && ':' in backend && !HasPrefix(backend, "http://")
  {
    hide Atoi, SplitHostPort;
    PortChars(port);
    SplitsAtPort("127.0.0.1", port);
    var backend := "127.0.0.1:" + port;
    assert backend == "127.0.0.1" + ":" + port;
    assert backend[9] == ':' && backend[0] == '1';
    NoScheme(backend);
  }

  /** A backend that names host and port, with or without the scheme: it is skipped exactly when the port is the
      proxy's own and the host is localhost or a loopback address, else it is proxied. */
  lemma NamedBackend(row: Row, listenable: bool, loopbackIP: string -> bool, host: string, port: string)
    requires Atoi(row.port).Some? && Atoi(row.port).value != 0
    requires row.backend == host + ":" + port || row.backend == "http://" + (host + ":" + port)
    requires NoMarks(host) && NoMarks(port) && (row.backend == host + ":" + port ==> !HasPrefix(row.backend, "http://"))
    ensures PlanOf(row, listenable, loopbackIP)
            == if port == row.port && (host == "localhost" || loopbackIP(host)) then Skipped
               else if listenable then Listens
               else ListenFailed
  {
    hide Atoi, SplitHostPort;
    SplitsAtPort(host, port);
    var bare := host + ":" + port;
    assert bare[|host|] == ':';
    if row.backend == "http://" + bare {
      assert row.backend[..7] == "http://" && row.backend[7..] == bare;
    }
  }

  /** An address in brackets is judged by what stands between them. */
  lemma BracketedBackend(row: Row, listenable: bool, loopbackIP: string -> bool, host: string, port: string)
    requires Atoi(row.port).Some? && Atoi(row.port).value != 0
    requires row.backend == "[" + host + "]:" + port && '[' !in host && ']' !in host && NoMarks(port)
    ensures PlanOf(row, listenable, loopbackIP)
            == if port == row.port && (host == "localhost" || loopbackIP(host)) then Skipped
               else if listenable then Listens
               else ListenFailed
  {
    hide Atoi, SplitHostPort;
    SplitsBrackets(host, port);
    NoScheme(row.backend);
    assert row.backend[|host| + 2] == ':';
  }

  lemma SplitsBrackets(host: string, port: string)
    requires '[' !in host && ']' !in host && NoMarks(port)
    ensures SplitHostPort("[" + host + "]:" + port) == Some(HostPort(host, port))
  {
    var s := "[" + host + "]:" + port;
    var i := |host| + 2;
    assert s[i] == ':' && s[i + 1..] == port && s[1..i - 1] == host && s[i - 1] == ']';
    assert forall k | i < k < |s| :: s[k] == port[k - i - 1];
    assert LastColon(s) == Some(i);
    assert forall k | 0 < k < i - 1 :: s[k] == host[k - 1];
    IndexOfUnique(s, ']', i - 1);
    assert s[1..] == host + "]:" + port;
    assert s[i..] == ":" + port;
  }

  /** With more than one colon and no bracket there is no telling host from port, and the backend is proxied. */
  lemma UnreadableBackend(row: Row, listenable: bool, loopbackIP: string -> bool, a: string, b: string, c: string)
    requires Atoi(row.port).Some? && Atoi(row.port).value != 0 && !HasPrefix(row.backend, "http://")
    requires row.backend == a + ":" + b + ":" + c && '[' !in row.backend
    ensures PlanOf(row, listenable, loopbackIP) == if listenable then Listens else ListenFailed
  {
    hide Atoi;
    var s := row.backend;
    assert s[|a|] == ':' && s[|a| + 1 + |b|] == ':';
    var i := LastColon(s).value;
    assert i > |a| && s[..i][|a|] == ':';
  }

  predicate NoMarks(s: string) {
    ':' !in s && '[' !in s && ']' !in s
  }

  predicate HostAndPort(s: string, host: string, port: string) {
    NoMarks(port) && '[' !in host && ']' !in host
    && ((s == host + ":" + port && ':' !in host) || s == "[" + host + "]:" + port)
  }

  /** A text splits into host and port exactly when it is the two with a colon between them, the host in brackets
      where it holds colons, and no other bracket or colon. */
  lemma SplitsExactly(s: string, host: string, port: string)
    ensures SplitHostPort(s) == Some(HostPort(host, port)) <==> HostAndPort(s, host, port)
  {
    if HostAndPort(s, host, port) {
      if s == "[" + host + "]:" + port {
        SplitsBrackets(host, port);
      } else {
        SplitsAtPort(host, port);
      }
    }
    if SplitHostPort(s) == Some(HostPort(host, port)) {
      if s[0] == '[' {
        SplitFromBrackets(s, host, port);
      } else {
        SplitFromPlain(s, host, port);
      }
    }
  }

  lemma SplitFromPlain(s: string, host: string, port: string)
    requires s != "" && s[0] != '[' && SplitHostPort(s) == Some(HostPort(host, port))
    ensures s == host + ":" + port && NoMarks(host) && NoMarks(port)
  {
    hide LastColon;
    var i := LastColon(s).value;
    assert s == s[..i] + ":" + s[i + 1..];
    assert forall c | c in port :: c in s && c != ':';
    assert forall c | c in host :: c in s;
  }

  lemma SplitFromBrackets(s: string, host: string, port: string)
    requires s != "" && s[0] == '[' && SplitHostPort(s) == Some(HostPort(host, port))
    ensures s == "[" + host + "]:" + port && '[' !in host && ']' !in host && NoMarks(port)
  {
    hide LastColon, IndexOf;
    var i := LastColon(s).value;
    var end := IndexOf(s, ']');
    assert i == end + 1 && s == "[" + s[1..end] + "]:" + s[i + 1..];
    assert forall c | c in port :: c in s[1..] && c in s[end + 1..] && c != ':';
    assert forall c | c in host :: c in s[1..] && c != ']';
  }

  /** Nothing to proxy to: the project is skipped. */
  lemma NothingToProxy(row: Row, listenable: bool, loopbackIP: string -> bool)
    requires Atoi(row.port).Some? && Atoi(row.port).value != 0
    requires row.backend == "" && row.serviceName == "" && row.startCmd == ""
    ensures PlanOf(row, listenable, loopbackIP) == Skipped
  {
    hide Atoi, SelfLoop;
  }

  /** A backend that is just a port is one on this machine: skipped exactly when it is the proxy's own. */
  lemma BarePortBackend(row: Row, listenable: bool, loopbackIP: string -> bool)
    requires Atoi(row.port).Some? && Atoi(row.port).value != 0 && loopbackIP("127.0.0.1")
    requires row.backend != "" && NoMarks(row.backend)
    ensures PlanOf(row, listenable, loopbackIP)
            == if row.backend == row.port then Skipped else if listenable then Listens else ListenFailed
  {
    hide Atoi, SplitHostPort;
    SplitsAtPort("127.0.0.1", row.backend);
    assert "127.0.0.1" + ":" + row.backend == "127.0.0.1:" + row.backend;
    assert |row.backend| >= 7 ==> row.backend[..7][4] == row.backend[4];
    assert !HasPrefix(row.backend, "http://");
  }

  // ---- every interleaving --------------------------------------------------------------------------------

  /** A listener with its serve loop and its counter. */
  datatype Serve = Serve(project: Project, open: bool, looping: bool, count: int)

  /** A connection handler: accepted, counted while it works, finished. */
  datatype Handler = Accepted(g: Generation) | Counted(g: Generation) | Finished(g: Generation)

  datatype State = State(r: Registry, serves: seq<Serve>, handlers: seq<Handler>)

  const INIT: State := State(Registry(map[], map[]), [], [])

  datatype Action =
    | Start(p: Project, plan: Plan)
    | Stop(p: Project)
    | Break(g: Generation)         // the listener fails by itself
    | ServeExit(g: Generation)     // Accept has failed: the serve loop returns
    | Accept(g: Generation)        // a connection from an allowed source
    | Enter(h: nat)                // its handler adds one to the counter
    | Leave(h: nat)                // and takes it back at the end

  predicate Enabled(s: State, a: Action) {
    match a
    case Start(_, _) => true
    case Stop(p) => p in s.r.listeners ==> s.r.listeners[p] < |s.serves|
    case Break(g) => g < |s.serves| && s.serves[g].open
    case ServeExit(g) => g < |s.serves| && s.serves[g].looping && !s.serves[g].open
    case Accept(g) => g < |s.serves| && s.serves[g].looping && s.serves[g].open
    case Enter(h) => h < |s.handlers| && s.handlers[h].Accepted? && s.handlers[h].g < |s.serves|
    case Leave(h) => h < |s.handlers| && s.handlers[h].Counted? && s.handlers[h].g < |s.serves|
  }

  function Put(s: State, g: Generation, v: Serve): State
    requires g < |s.serves|
  {
    s.(serves := s.serves[g := v])
  }

  function Step(s: State, a: Action): State
    requires Enabled(s, a)
  {
    match a
    case Start(p, plan) =>
      s.(r := s.r.Started(p, plan, |s.serves|),
         serves := if p in s.r.listeners || !plan.Listens? then s.serves else s.serves + [Serve(p, true, true, 0)])
    case Stop(p) =>
      (if p in s.r.listeners then var g := s.r.listeners[p]; Put(s, g, s.serves[g].(open := false)) else s)
      .(r := s.r.Stopped(p))
    case Break(g) => Put(s, g, s.serves[g].(open := false))
    case ServeExit(g) => Put(s, g, s.serves[g].(looping := false)).(r := s.r.Died(s.serves[g].project, g))
    case Accept(g) => s.(handlers := s.handlers + [Accepted(g)])
    case Enter(h) =>
      var g := s.handlers[h].g;
      Put(s, g, s.serves[g].(count := s.serves[g].count + 1)).(handlers := s.handlers[h := Counted(g)])
    case Leave(h) =>
      var g := s.handlers[h].g;
      Put(s, g, s.serves[g].(count := s.serves[g].count - 1)).(handlers := s.handlers[h := Finished(g)])
  }

  predicate Run(states: seq<State>, actions: seq<Action>) {
    && |states| == |actions| + 1 && states[0] == INIT
    && forall i | 0 <= i < |actions| :: Enabled(states[i], actions[i]) && states[i + 1] == Step(states[i], actions[i])
  }

  /** The handlers of a generation that are between Enter and Leave. */
  function InFlight(handlers: seq<Handler>, g: Generation): nat {
    if handlers == [] then 0
    else InFlight(handlers[..|handlers| - 1], g) + (if handlers[|handlers| - 1] == Counted(g) then 1 else 0)
  }

  predicate RegistryInv(s: State) {
    && s.r.listeners == s.r.actives
    && (forall p | p in s.r.listeners ::
          s.r.listeners[p] < |s.serves| && s.serves[s.r.listeners[p]].project == p
              && s.serves[s.r.listeners[p]].looping)
    && (forall g | 0 <= g < |s.serves| && s.serves[g].open ::
          s.serves[g].looping && s.serves[g].project in s.r.listeners && s.r.listeners[s.serves[g].project] == g)
  }

  predicate CounterInv(s: State) {
    && (forall g | 0 <= g < |s.serves| :: s.serves[g].count == InFlight(s.handlers, g))
    && (forall h | 0 <= h < |s.handlers| :: s.handlers[h].g < |s.serves|)
  }

  lemma RegistryStep(s: State, a: Action)
    requires RegistryInv(s) && Enabled(s, a)
    ensures RegistryInv(Step(s, a))
  {
    hide InFlight;
  }

  lemma {:induction false} InFlightUpdate(hs: seq<Handler>, h: nat, v: Handler, g: Generation)
    requires h < |hs|
    ensures InFlight(hs[h := v], g)
            == InFlight(hs, g) - (if hs[h] == Counted(g) then 1 else 0) + (if v == Counted(g) then 1 else 0)
  {
    var n := |hs| - 1;
    if h == n {
      assert hs[h := v][..n] == hs[..n];
    } else {
      assert hs[h := v][..n] == hs[..n][h := v];
      InFlightUpdate(hs[..n], h, v, g);
    }
  }

  lemma {:induction false} NoneInFlight(hs: seq<Handler>, g: Generation)
    requires forall h | 0 <= h < |hs| :: hs[h].g < g
    ensures InFlight(hs, g) == 0
  {
    if hs != [] {
      NoneInFlight(hs[..|hs| - 1], g);
    }
  }

  lemma CounterStep(s: State, a: Action)
    requires CounterInv(s) && Enabled(s, a)
    ensures CounterInv(Step(s, a))
  {
    var s' := Step(s, a);
    match a {
      case Start(_, _) => NoneInFlight(s.handlers, |s.serves|);
      case Accept(g) => assert s'.handlers[..|s.handlers|] == s.handlers;
      case Enter(h) => forall g: Generation { InFlightUpdate(s.handlers, h, s'.handlers[h], g); }
      case Leave(h) => forall g: Generation { InFlightUpdate(s.handlers, h, s'.handlers[h], g); }
      case _ =>
    }
  }

  lemma {:induction false} RunKeeps(states: seq<State>, actions: seq<Action>, i: nat)
    requires Run(states, actions) && i < |states|
    ensures RegistryInv(states[i]) && CounterInv(states[i])
  {
    hide Step, RegistryInv, CounterInv;
    if i > 0 {
      RunKeeps(states, actions, i - 1);
      RegistryStep(states[i - 1], actions[i - 1]);
      CounterStep(states[i - 1], actions[i - 1]);
    } else {
      InitHolds();
    }
  }

  lemma InitHolds()
    ensures RegistryInv(INIT) && CounterInv(INIT)
  {}

  // ---- the main results ----------------------------------------------------------------------------------------

  /** In every reachable state the two maps have the same keys and hold the same generation, every open
      listener is the registered one of its project, so a project never has two and none is ever lost,
      and every counter is the number of its handlers at work. */
  lemma RegistryExact(states: seq<State>, actions: seq<Action>, i: nat)
    requires Run(states, actions) && i < |states|
    ensures var s := states[i];
            && s.r.listeners == s.r.actives
            && (forall g | 0 <= g < |s.serves| && s.serves[g].open ::
                  s.serves[g].project in s.r.listeners && s.r.listeners[s.serves[g].project] == g)
            && (forall g | 0 <= g < |s.serves| ::
                  s.serves[g].count == InFlight(s.handlers, g) && s.serves[g].count >= 0)
  {
    RunKeeps(states, actions, i);
  }

  /** A listener leaves the registry only by its own death or by Stop: whatever an older serve loop does
      when it ends, a listener started later stays. */
  lemma OldLoopHarmless(states: seq<State>, actions: seq<Action>, i: nat, p: Project, after: State)
    requires Run(states, actions) && i < |actions| && after == states[i + 1] && p in states[i].r.listeners
    ensures var g := states[i].r.listeners[p];
            p in after.r.listeners && after.r.listeners[p] == g
            <==> actions[i] != Stop(p) && actions[i] != ServeExit(g)
  {
    RunKeeps(states, actions, i);
    RunKeeps(states, actions, i + 1);
  }

  /** The project's registered listener is open. */
  predicate Serving(s: State, p: Project) {
    p in s.r.listeners && s.r.listeners[p] < |s.serves| && s.serves[s.r.listeners[p]].open
  }

  /** Without Stop and without a failing listener a registered project stays registered for ever. */
  lemma {:induction false} StaysRegistered(states: seq<State>, actions: seq<Action>, i: nat, j: nat, p: Project)
    requires Run(states, actions) && i <= j < |states|
    requires Serving(states[i], p)
    requires forall k | i <= k < j :: actions[k] != Stop(p) && actions[k] != Break(states[i].r.listeners[p])
    ensures Serving(states[j], p) && states[j].r.listeners[p] == states[i].r.listeners[p]
    decreases j
  {
    hide Step, Enabled, RegistryInv, CounterInv, Serving;
    if i < j {
      StaysRegistered(states, actions, i, j - 1, p);
      RunKeeps(states, actions, j - 1);
      OpenStays(states[j - 1], actions[j - 1], p);
    }
  }

  lemma OpenStays(s: State, a: Action, p: Project)
    requires RegistryInv(s) && Enabled(s, a) && Serving(s, p)
    requires a != Stop(p) && a != Break(s.r.listeners[p])
    ensures Serving(Step(s, a), p) && Step(s, a).r.listeners[p] == s.r.listeners[p]
  {}

  /** Start opens the listener of a project that had none, and Stop leaves the project without an open one. */
  lemma OpensAndCloses(states: seq<State>, actions: seq<Action>, i: nat, p: Project, plan: Plan)
    requires Run(states, actions) && i < |actions|
    ensures actions[i] == Start(p, plan) && p !in states[i].r.listeners ==>
              (Serving(states[i + 1], p) <==> plan.Listens?)
    ensures actions[i] == Stop(p) ==>
              forall v | v in states[i + 1].serves && v.project == p :: !v.open
  {
    RunKeeps(states, actions, i);
    RunKeeps(states, actions, i + 1);
  }
}
