/** Project lifecycle events of projects.go, each run to completion, and what they leave in the
    reference counts of the shared services. */
module Lifecycle {
  import opened Wrappers
  import opened SharedServices

  /** A row of the projects table, as far as the shared services are concerned. */
  datatype Row = Row(status: string, host: string, services: seq<Decl>) {
    predicate Local() {
      host == "" || host == "lambs"
    }
  }

  /** The services that the project of this row holds on this machine while it is online. */
  ghost predicate Holds(row: Row, n: Name) {
    row.status == "online" && row.Local() && Declares(row.services, n)
  }

  /** The projects whose reference the service should have. */
  ghost function Holders(rows: map<Project, Row>, n: Name): set<Project> {
    set p | p in rows && Holds(rows[p], n)
  }

  ghost function RefsOf(m: Manager, n: Name): set<Project>
    requires m.Valid()
  {
    if n in m.services then m.instances[m.services[n]].refs else {}
  }

  /** The first declaration of every name; declarations without a name are dropped. */
  function Deduped(ds: seq<Decl>): seq<Decl> {
    if ds == [] then []
    else
      var front := Deduped(ds[..|ds| - 1]);
      var d := ds[|ds| - 1];
      if d.name == "" || HasName(front, d.name) then front else front + [d]
  }

  lemma HasNameAppend(ds: seq<Decl>, d: Decl, n: Name)
    ensures HasName(ds + [d], n) == (HasName(ds, n) || d.name == n)
  {
    var all := ds + [d];
    assert all[|ds|] == d && forall i | 0 <= i < |ds| :: all[i] == ds[i];
  }

  /** No name is registered twice, and none is lost. */
  lemma {:induction false} DedupedNames(ds: seq<Decl>, n: Name)
    ensures var r := Deduped(ds);
            && (HasName(r, n) <==> n != "" && HasName(ds, n))
            && (forall i, j | 0 <= i < j < |r| :: r[i].name != r[j].name)
  {
    if ds != [] {
      var k := |ds| - 1;
      var front := Deduped(ds[..k]);
      DedupedNames(ds[..k], n);
      DedupedNames(ds[..k], ds[k].name);
      assert ds == ds[..k] + [ds[k]];
      HasNameAppend(ds[..k], ds[k], n);
      HasNameAppend(front, ds[k], n);
    }
  }

  /** A declaration with a name that none before it has. */
  predicate IsFirst(ds: seq<Decl>, k: nat) {
    k < |ds| && ds[k].name != "" && forall j | 0 <= j < k :: ds[j].name != ds[k].name
  }

  lemma FirstAppend(ds: seq<Decl>, k: nat)
    requires ds != []
    ensures var n := |ds| - 1;
            IsFirst(ds, k) <==> if k < n then IsFirst(ds[..n], k)
                                else k == n && ds[n].name != "" && !HasName(ds[..n], ds[n].name)
  {
    var n := |ds| - 1;
    assert forall j | 0 <= j < n :: ds[..n][j] == ds[j];
  }

  lemma DedupedAppend(ds: seq<Decl>)
    requires ds != []
    ensures var n := |ds| - 1; var front := Deduped(ds[..n]);
            Deduped(ds) == if IsFirst(ds, n) then front + [ds[n]] else front
  {
    hide HasName, IsFirst;
    FirstAppend(ds, |ds| - 1);
    DedupedNames(ds[..|ds| - 1], ds[|ds| - 1].name);
  }

  /** What is kept are exactly the first declarations of their names, in their order. */
  lemma {:induction false} DedupedFirsts(ds: seq<Decl>) returns (at: seq<nat>)
    ensures |at| == |Deduped(ds)|
    ensures forall i | 0 <= i < |at| :: at[i] < |ds| && Deduped(ds)[i] == ds[at[i]]
    ensures forall i, j | 0 <= i < j < |at| :: at[i] < at[j]
    ensures forall k: nat :: k in at <==> IsFirst(ds, k)
  {
    hide Deduped, IsFirst, HasName;
    if ds == [] {
      at := [];
      NothingFirst();
    } else {
      var n := |ds| - 1;
      at := DedupedFirsts(ds[..n]);
      DedupedAppend(ds);
      forall k: nat
        ensures IsFirst(ds, k) <==> if k < n then k in at else k == n && IsFirst(ds, n)
      {
        FirstAppend(ds, k);
      }
      if IsFirst(ds, n) {
        at := at + [n];
      }
    }
  }

  lemma NothingFirst()
    ensures Deduped([]) == [] && forall k: nat :: !IsFirst([], k)
  {}

  method Dedupe(ds: seq<Decl>) returns (uniq: seq<Decl>)
    ensures uniq == Deduped(ds)
  {
    hide HasName;
    var seen: set<Name> := {};
    uniq := [];
    NoNames();
    for k := 0 to |ds|
      invariant uniq == Deduped(ds[..k])
      invariant forall n :: n in seen <==> HasName(uniq, n)
    {
      assert ds[..k + 1][..k] == ds[..k];
      var d := ds[k];
      if d.name != "" && d.name !in seen {
        forall n ensures HasName(uniq + [d], n) == (HasName(uniq, n) || d.name == n) { HasNameAppend(uniq, d, n); }
        seen := seen + {d.name};
        uniq := uniq + [d];
      }
    }
    assert ds[..|ds|] == ds;
  }

  lemma NoNames()
    ensures forall n :: !HasName([], n)
  {}

  // ---- what the events do ----------------------------------------------------------------------------

  datatype World = World(rows: map<Project, Row>, m: Manager) {
    ghost predicate Valid() { m.Valid() }
  }

  ghost predicate Same(w: World, w': World) {
    w.rows == w'.rows && SameRefs(w.m, w'.m)
  }

  ghost function Created(w: World, id: Project, row: Row): World
    requires w.Valid()
  {
    if id in w.rows then w
    else World(w.rows[id := row], if row.status == "online" && row.Local() then AttachAll(w.m, id, row.services)
        else w.m)
  }

  function NextStatus(current: string, requested: string): string {
    if requested != "" then requested
    else if current == "offline" then "maintenance"
    else if current == "maintenance" then "online"
    else "offline"
  }

  predicate KnownStatus(s: string) {
    s == "online" || s == "offline" || s == "maintenance"
  }

  ghost function Patched(w: World, id: Project, requested: string): World
    requires w.Valid()
  {
    if id !in w.rows then w
    else
      var row := w.rows[id];
      var next := NextStatus(row.status, requested);
      if !KnownStatus(next) || next == row.status then w
      else
        World(w.rows[id := row.(status := next)],
              if next != "online" then DetachAll(w.m, id, row.services)
              else if row.Local() then AttachAll(w.m, id, row.services)
              else w.m)
  }

  /** Without a status in the request a project goes round from online to offline, maintenance and online again;
      with one it goes there, if it is one of the three and not the one it has. */
  lemma StatusCycle(w: World, id: Project, requested: string)
    requires w.Valid() && id in w.rows
    ensures var s, s' := w.rows[id].status, Patched(w, id, requested).rows[id].status;
            && (requested in {"online", "offline", "maintenance"} ==> s' == requested)
            && (requested !in {"", "online", "offline", "maintenance"} ==> Patched(w, id, requested) == w)
            && (requested != "" && requested == s ==> Patched(w, id, requested) == w)
            && (requested == "" && s == "online" ==> s' == "offline")
            && (requested == "" && s == "offline" ==> s' == "maintenance")
            && (requested == "" && s == "maintenance" ==> s' == "online")
    ensures w.rows[id].status in {"online", "offline", "maintenance"} ==>
              var three := Patched(Patched(Patched(w, id, ""), id, ""), id, "");
              three.rows[id] == w.rows[id]
  {
    hide AttachAll, DetachAll;
  }

  ghost function Deleted(w: World, id: Project): World
    requires w.Valid()
  {
    if id !in w.rows then w
    else World(w.rows - {id}, DetachAll(w.m, id, w.rows[id].services))
  }

  /** UpdateProject replaces declarations and host in the row and touches no process. */
  ghost function Updated(w: World, id: Project, services: Option<seq<Decl>>, host: string): World {
    if id !in w.rows then w
    else
      var row := w.rows[id];
      w.(rows := w.rows[id := row.(services := if services.Some? then Deduped(services.value) else row.services,
                                   host := if host != "" then host else row.host)])
  }

  /** An edit replaces the declarations if there are new ones and the host if there is a name for it; status,
      other projects and all services stay as they are. */
  lemma EditExactly(w: World, id: Project, services: Option<seq<Decl>>, host: string)
    ensures var w' := Updated(w, id, services, host);
            && w'.m == w.m && w'.rows.Keys == w.rows.Keys
            && (forall p | p in w.rows && p != id :: w'.rows[p] == w.rows[p])
            && (id in w.rows ==>
                  && w'.rows[id].status == w.rows[id].status
                  && (host == "" ==> w'.rows[id].host == w.rows[id].host) && (host != "" ==> w'.rows[id].host == host)
                  && match services
                     case None => w'.rows[id].services == w.rows[id].services
                     case Some(ds) => forall n :: Declares(w'.rows[id].services, n) <==> DeclaredFirst(ds, n))
  {
    if id in w.rows && services.Some? {
      forall n
        ensures Declares(Deduped(services.value), n) <==> DeclaredFirst(services.value, n)
      {
        DeclaresDeduped(services.value, n);
      }
    }
  }

  /** The first declaration of the name has a command to start it. */
  predicate DeclaredFirst(ds: seq<Decl>, n: Name) {
    exists k: nat | k < |ds| :: IsFirst(ds, k) && ds[k].name == n && ds[k].startCmd != ""
  }

  lemma DeclaresDeduped(ds: seq<Decl>, n: Name)
    ensures Declares(Deduped(ds), n) <==> DeclaredFirst(ds, n)
  {
    hide Deduped, IsFirst;
    var at := DedupedFirsts(ds);
    if Declares(Deduped(ds), n) {
      var i :| 0 <= i < |Deduped(ds)| && Deduped(ds)[i].name == n && Startable(Deduped(ds)[i]);
      assert at[i] in at;
    }
    if DeclaredFirst(ds, n) {
      var k: nat :| k < |ds| && IsFirst(ds, k) && ds[k].name == n && ds[k].startCmd != "";
      var i :| 0 <= i < |at| && at[i] == k;
      NamedFirst(ds, k);
      assert Deduped(ds)[i] == ds[k];
    }
  }

  lemma NamedFirst(ds: seq<Decl>, k: nat)
    requires IsFirst(ds, k)
    ensures ds[k].name != ""
  {}

  class Server {
    var rows: map<Project, Row>
    const pm: ProcManager

    ghost function View(): World
      reads this, pm
    {
      World(rows, pm.View())
    }

    constructor (pm: ProcManager)
      ensures this.pm == pm && rows == map[]
    {
      this.pm := pm;
      rows := map[];
    }

    method CreateProject(id: Project, status: string, host: string, declared: seq<Decl>,
        launches: seq<Option<LaunchId>>)
      returns (ok: bool)
      requires View().Valid() && |launches| == |Deduped(declared)|
      modifies this, pm
      ensures View().Valid() && ok == (id !in old(rows))
      ensures Same(Created(old(View()), id, Row(if status == "" then "online" else status, host, Deduped(declared))),
          View())
      ensures pm.View() == if ok && (status == "" || status == "online") && (host == "" || host == "lambs")
                           then AttachRun(old(pm.View()), id, Deduped(declared), launches) else old(pm.View())
    {
      var st := if status == "" then "online" else status;
      var uniq := Dedupe(declared);
      if id in rows {
        return false;
      }
      var row := Row(st, host, uniq);
      rows := rows[id := row];
      if st == "online" && row.Local() {
        pm.AttachServices(id, uniq, launches);
      }
      ok := true;
    }

    method PatchProjectStatus(id: Project, requested: string, launches: seq<Option<LaunchId>>) returns (ok: bool)
      requires View().Valid() && (id in rows ==> |launches| == |rows[id].services|)
      modifies this, pm
      ensures View().Valid() && ok == (id in old(rows) && KnownStatus(NextStatus(old(rows)[id].status, requested)))
      ensures Same(Patched(old(View()), id, requested), View())
      ensures pm.View() == if id in old(rows) && old(rows)[id].status != "online" && old(rows)[id].Local()
                              && NextStatus(old(rows)[id].status, requested) == "online"
                           then AttachRun(old(pm.View()), id, old(rows)[id].services, launches)
                           else Patched(old(View()), id, requested).m
    {
      if id !in rows {
        return false;
      }
      var current := rows[id].status;
      var next := "offline";
      if current == "offline" {
        next := "maintenance";
      }
      if current == "maintenance" {
        next := "online";
      }
      if requested != "" {
        next := requested;
      }
      if next != "online" && next != "offline" && next != "maintenance" {
        return false;
      }
      if next == current {
        return true;
      }
      rows := rows[id := rows[id].(status := next)];
      if next == "online" {
        if rows[id].Local() {
          pm.AttachServices(id, rows[id].services, launches);
        }
      } else {
        var stopped := pm.DetachServices(id, rows[id].services);
      }
      ok := true;
    }

    method DeleteProject(id: Project) returns (ok: bool)
      requires View().Valid()
      modifies this, pm
      ensures View().Valid() && ok == (id in old(rows)) && View() == Deleted(old(View()), id)
    {
      var stopped := pm.DetachServices(id, if id in rows then rows[id].services else []);
      ok := id in rows;
      rows := rows - {id};
      assert id !in old(rows) ==> rows == old(rows);
    }

    method UpdateProject(id: Project, services: Option<seq<Decl>>, host: string) returns (ok: bool)
      modifies this
      ensures ok == (id in old(rows)) && View() == Updated(old(View()), id, services, host)
    {
      if id !in rows {
        return false;
      }
      var row := rows[id];
      if services.Some? {
        var uniq := Dedupe(services.value);
        row := row.(services := uniq);
      }
      if host != "" {
        row := row.(host := host);
      }
      rows := rows[id := row];
      ok := true;
    }
  }

  // ---- references follow status --------------------------------------------------------------------------

  /** Each service in the map has references and is registered under its own name. */
  ghost predicate NamesInv(m: Manager)
    requires m.Valid()
  {
    forall n | n in m.services :: m.instances[m.services[n]].decl.name == n && m.instances[m.services[n]].refs != {}
  }

  /** The references of every service are exactly the online local projects that declare it with a
      command to start. */
  ghost predicate Agree(w: World) {
    w.m.Valid() && NamesInv(w.m) && forall n :: RefsOf(w.m, n) == Holders(w.rows, n)
  }

  lemma AttachRefs(m: Manager, p: Project, d: Decl, n: Name)
    requires m.Valid() && NamesInv(m)
    ensures var m' := Attached(m, p, d).m;
            m'.Valid() && NamesInv(m') && RefsOf(m', n) == RefsOf(m, n) + (if n == d.name then {p} else {})
  {
    var m' := Attached(m, p, d).m;
    if d.name !in m.services {
      assert m'.instances[|m.instances|].decl == d;
    }
  }

  lemma DetachRefs(m: Manager, p: Project, name: Name, n: Name)
    requires m.Valid() && NamesInv(m)
    ensures var m' := Detached(m, p, name).m;
            m'.Valid() && NamesInv(m') && RefsOf(m', n) == RefsOf(m, n) - (if n == name then {p} else {})
  {}

  lemma {:induction false} AttachAllRefs(m: Manager, p: Project, ds: seq<Decl>, n: Name)
    requires m.Valid() && NamesInv(m)
    ensures var m' := AttachAll(m, p, ds);
            m'.Valid() && NamesInv(m') && RefsOf(m', n) == RefsOf(m, n) + (if Declares(ds, n) then {p} else {})
  {
    hide NamesInv, RefsOf;
    if ds != [] {
      var k := |ds| - 1;
      var front := ds[..k];
      AttachAllRefs(m, p, front, n);
      if Startable(ds[k]) {
        AttachRefs(AttachAll(m, p, front), p, ds[k], n);
      }
      DeclaresAppend(ds, n);
    }
  }

  lemma {:induction false} DetachAllRefs(m: Manager, p: Project, ds: seq<Decl>, n: Name)
    requires m.Valid() && NamesInv(m)
    ensures var m' := DetachAll(m, p, ds);
            m'.Valid() && NamesInv(m') && RefsOf(m', n) == RefsOf(m, n) - (if Named(ds, n) then {p} else {})
  {
    hide NamesInv, RefsOf;
    if ds != [] {
      var k := |ds| - 1;
      var front := ds[..k];
      DetachAllRefs(m, p, front, n);
      if ds[k].name != "" {
        DetachRefs(DetachAll(m, p, front), p, ds[k].name, n);
      }
      NamedAppend(ds, n);
    }
  }

  lemma CreateAgrees(w: World, id: Project, row: Row)
    requires Agree(w)
    ensures Agree(Created(w, id, row))
  {
    hide NamesInv, AttachAll, RefsOf;
    if id !in w.rows {
      var w' := Created(w, id, row);
      forall n ensures RefsOf(w'.m, n) == Holders(w'.rows, n) && NamesInv(w'.m) {
        AttachAllRefs(w.m, id, row.services, n);
        assert Holders(w'.rows, n) == Holders(w.rows, n) + (if Holds(row, n) then {id} else {});
      }
      assert RefsOf(w'.m, "") == Holders(w'.rows, "");
    }
  }

  lemma PatchAgrees(w: World, id: Project, requested: string)
    requires Agree(w)
    ensures Agree(Patched(w, id, requested))
  {
    hide NamesInv, AttachAll, DetachAll, RefsOf;
    var w' := Patched(w, id, requested);
    if w' != w {
      var row := w.rows[id];
      var row' := w'.rows[id];
      forall n ensures RefsOf(w'.m, n) == Holders(w'.rows, n) && NamesInv(w'.m) {
        assert Holders(w'.rows, n) == (Holders(w.rows, n) - {id}) + (if Holds(row', n) then {id} else {});
        assert id in Holders(w.rows, n) <==> Holds(row, n);
        AttachAllRefs(w.m, id, row.services, n);
        DetachAllRefs(w.m, id, row.services, n);
        HoldsIsNamed(row, n);
      }
      assert RefsOf(w'.m, "") == Holders(w'.rows, "");
    }
  }

  lemma HoldsIsNamed(row: Row, n: Name)
    ensures Holds(row, n) ==> Named(row.services, n)
  {}

  lemma DeleteAgrees(w: World, id: Project)
    requires Agree(w)
    ensures Agree(Deleted(w, id))
  {
    hide NamesInv, DetachAll, RefsOf;
    if id in w.rows {
      var w' := Deleted(w, id);
      forall n ensures RefsOf(w'.m, n) == Holders(w'.rows, n) && NamesInv(w'.m) {
        assert Holders(w'.rows, n) == Holders(w.rows, n) - {id};
        assert id in Holders(w.rows, n) <==> Holds(w.rows[id], n);
        DetachAllRefs(w.m, id, w.rows[id].services, n);
        HoldsIsNamed(w.rows[id], n);
      }
      assert RefsOf(w'.m, "") == Holders(w'.rows, "");
    }
  }

  /** The services held do not change with the row. */
  ghost predicate HoldsSame(row: Row, row': Row) {
    forall n :: Holds(row, n) == Holds(row', n)
  }

  /** Editing a project keeps references and status in step exactly when the project is not online and
      local both before and after, or the set of services it declares with a start command stays the
      same: the edit itself attaches and detaches nothing. */
  lemma UpdateAgreesExactly(w: World, id: Project, services: Option<seq<Decl>>, host: string)
    requires Agree(w) && id in w.rows
    ensures var w' := Updated(w, id, services, host);
            Agree(w') <==> HoldsSame(w.rows[id], w'.rows[id])
  {
    var w' := Updated(w, id, services, host);
    forall n ensures Holders(w'.rows, n) == (Holders(w.rows, n) - {id})
        + (if Holds(w'.rows[id], n) then {id} else {}) {}
    forall n ensures id in Holders(w.rows, n) <==> Holds(w.rows[id], n) {}
    if Agree(w') {
      forall n ensures Holds(w.rows[id], n) == Holds(w'.rows[id], n) {
        assert RefsOf(w'.m, n) == Holders(w'.rows, n) && RefsOf(w.m, n) == Holders(w.rows, n);
      }
    }
  }

  /** A real edit breaks it: an online project that gains a service has no reference on it. */
  lemma UpdateCanBreak(w: World, id: Project, d: Decl)
    requires Agree(w) && id in w.rows && w.rows[id] == Row("online", "", []) && Startable(d)
    ensures !Agree(Updated(w, id, Some([d]), ""))
  {
    hide Agree;
    UpdateAgreesExactly(w, id, Some([d]), "");
    var row' := Updated(w, id, Some([d]), "").rows[id];
    DedupedSingle(d);
    assert row'.services[0] == d;
    assert Holds(row', d.name) && !Holds(w.rows[id], d.name);
  }

  lemma DedupedSingle(d: Decl)
    requires d.name != ""
    ensures Deduped([d]) == [d]
  {
    assert [d][..0] == [];
    NoNames();
  }

  // ---- runs ----------------------------------------------------------------------------------------------------

  datatype Event =
    | Create(id: Project, row: Row)
    | Patch(id: Project, requested: string)
    | Delete(id: Project)
    | Update(id: Project, services: Option<seq<Decl>>, host: string)

  ghost function Apply(w: World, e: Event): World
    requires w.Valid()
  {
    match e
    case Create(id, row) => Created(w, id, row)
    case Patch(id, requested) => Patched(w, id, requested)
    case Delete(id) => Deleted(w, id)
    case Update(id, services, host) => Updated(w, id, services, host)
  }

  /** Edits while online leave the services held alone. */
  ghost predicate Gentle(w: World, e: Event) {
    e.Update? && e.id in w.rows ==> HoldsSame(w.rows[e.id], Updated(w, e.id, e.services, e.host).rows[e.id])
  }

  /** A run of completed events; between events processes may come and go. */
  ghost predicate Run(worlds: seq<World>, events: seq<Event>) {
    && |worlds| == |events| + 1 && worlds[0] == World(map[], Manager(map[], []))
    && forall i | 0 <= i < |events| :: worlds[i].Valid() && Same(Apply(worlds[i], events[i]), worlds[i + 1])
  }

  lemma SameAgrees(w: World, w': World)
    requires Same(w, w')
    ensures Agree(w) <==> Agree(w')
  {
    forall n ensures RefsOf(w'.m, n) == RefsOf(w.m, n) {}
  }

  /** One event, from a world in step: it stays in step exactly when the event is gentle. */
  lemma EventAgrees(w: World, e: Event)
    requires Agree(w)
    ensures Agree(Apply(w, e)) <==> Gentle(w, e)
  {
    hide Agree, AttachAll, DetachAll;
    match e {
      case Create(id, row) => CreateAgrees(w, id, row);
      case Patch(id, requested) => PatchAgrees(w, id, requested);
      case Delete(id) => DeleteAgrees(w, id);
      case Update(id, services, host) => if id in w.rows { UpdateAgreesExactly(w, id, services, host); }
    }
  }

  /** In every run of create, status change, delete and edit, every service in the map is always referenced
      by exactly the online local projects that declare it with a start command, if and only if no edit
      changes what a project holds. */
  lemma StatusAndRefsAgree(worlds: seq<World>, events: seq<Event>)
    requires Run(worlds, events)
    ensures (forall i | 0 <= i < |worlds| :: Agree(worlds[i]))
            <==> (forall i | 0 <= i < |events| :: Gentle(worlds[i], events[i]))
  {
    hide Agree, Gentle, Apply;
    if forall i | 0 <= i < |events| :: Gentle(worlds[i], events[i]) {
      forall i | 0 <= i < |worlds|
        ensures Agree(worlds[i])
      {
        AgreesUpTo(worlds, events, i);
      }
    }
    if forall i | 0 <= i < |worlds| :: Agree(worlds[i]) {
      forall i | 0 <= i < |events|
        ensures Gentle(worlds[i], events[i])
      {
        assert Agree(worlds[i]) && Agree(worlds[i + 1]);
        SameAgrees(Apply(worlds[i], events[i]), worlds[i + 1]);
        EventAgrees(worlds[i], events[i]);
      }
    }
  }

  lemma HoldsMeans(row: Row, n: Name)
    ensures Holds(row, n)
            <==> row.status == "online" && (row.host == "" || row.host == "lambs") && n != ""
                 && exists d :: d in row.services && d.name == n && d.startCmd != ""
  {
    if Declares(row.services, n) {
      var k :| 0 <= k < |row.services| && row.services[k].name == n && Startable(row.services[k]);
      assert row.services[k] in row.services;
    }
    if d :| d in row.services && d.name == n && d.startCmd != "" {
      var k :| 0 <= k < |row.services| && row.services[k] == d;
      assert n != "" ==> Declares(row.services, n);
    }
  }

  /** Written out: in such a run project p holds a reference on service n exactly while p is online, on this
      machine, and declares n with a command to start it; a service is known only while it has references. */
  lemma ReferencedExactly(worlds: seq<World>, events: seq<Event>, i: nat, p: Project, n: Name)
    requires Run(worlds, events) && i < |worlds|
    requires forall j | 0 <= j < |events| :: Gentle(worlds[j], events[j])
    ensures worlds[i].Valid()
    ensures n in worlds[i].m.services ==> worlds[i].m.instances[worlds[i].m.services[n]].refs != {}
    ensures var rows, m := worlds[i].rows, worlds[i].m;
            n in m.services && p in m.instances[m.services[n]].refs
            <==> p in rows && rows[p].status == "online" && (rows[p].host == "" || rows[p].host == "lambs") && n != ""
                 && exists d :: d in rows[p].services && d.name == n && d.startCmd != ""
  {
    hide Gentle, Apply, Holds;
    AgreesUpTo(worlds, events, i);
    var rows, m := worlds[i].rows, worlds[i].m;
    assert RefsOf(m, n) == Holders(rows, n);
    assert p in RefsOf(m, n) <==> n in m.services && p in m.instances[m.services[n]].refs;
    assert p in Holders(rows, n) <==> p in rows && Holds(rows[p], n);
    if p in rows {
      HoldsMeans(rows[p], n);
    }
  }

  lemma {:induction false} AgreesUpTo(worlds: seq<World>, events: seq<Event>, i: nat)
    requires Run(worlds, events) && i < |worlds|
    requires forall j | 0 <= j < i :: Gentle(worlds[j], events[j])
    ensures Agree(worlds[i])
  {
    hide Agree, Gentle, Apply;
    if i == 0 {
      NothingAgrees();
    } else {
      AgreesUpTo(worlds, events, i - 1);
      EventAgrees(worlds[i - 1], events[i - 1]);
      SameAgrees(Apply(worlds[i - 1], events[i - 1]), worlds[i]);
    }
  }

  lemma NothingAgrees()
    ensures Agree(World(map[], Manager(map[], [])))
  {}
}
